// What kfree makes of the general list: the block in flight is merged with the
// free neighbours the scan meets, and the order in which it meets them matters.
module Coalescing {
  import opened HeapBlocks

  // The scan's two tests, on the m-th block of the general list.
  ghost predicate LowerAt(h: Heap, x: nat, m: nat)
    requires |h.lists| == LISTS
  {
    m < |h.lists[QUICK_LISTS]| && h.lists[QUICK_LISTS][m] + Get(h.mem, h.lists[QUICK_LISTS][m]) + HEADER == x
  }

  ghost predicate UpperAt(h: Heap, x: nat, m: nat)
    requires |h.lists| == LISTS
  {
    m < |h.lists[QUICK_LISTS]| && x + HEADER + Get(h.mem, x) == h.lists[QUICK_LISTS][m]
  }

  // Where the neighbours are on the list; its length when there is none.
  ghost function LowerIndex(h: Heap, x: nat): (i: nat)
    requires |h.lists| == LISTS
    ensures i == |h.lists[QUICK_LISTS]| || LowerAt(h, x, i)
  {
    if exists i: nat :: LowerAt(h, x, i) then var i: nat :| LowerAt(h, x, i); i else |h.lists[QUICK_LISTS]|
  }

  ghost function UpperIndex(h: Heap, x: nat): (j: nat)
    requires |h.lists| == LISTS
    ensures j == |h.lists[QUICK_LISTS]| || UpperAt(h, x, j)
  {
    if exists j: nat :: UpperAt(h, x, j) then var j: nat :| UpperAt(h, x, j); j else |h.lists[QUICK_LISTS]|
  }

  lemma OnList(h: Heap, e: nat, m: nat)
    requires FitsBut(h, e) && m < |h.lists[QUICK_LISTS]|
    ensures var a := h.lists[QUICK_LISTS][m];
      Is(h, a, Free(QUICK_LISTS)) && BlockOk(h, a) && End(h, a) == a + Get(h.mem, a) + HEADER && End(h, a) > a
  {
    assert LinkOk(h, QUICK_LISTS, m) && BlockOk(h, h.lists[QUICK_LISTS][m]);
  }

  lemma LowerIndexIs(h: Heap, e: nat, x: nat, m: nat)
    requires FitsBut(h, e) && LowerAt(h, x, m)
    ensures LowerIndex(h, x) == m
  {
    var k := LowerIndex(h, x);
    assert LowerAt(h, x, k);
    OnList(h, e, m);
    OnList(h, e, k);
    var a, b := h.lists[QUICK_LISTS][m], h.lists[QUICK_LISTS][k];
    assert Ordered(h, a, b) && Ordered(h, b, a);
    assert DistinctOk(h, QUICK_LISTS, m, k) && DistinctOk(h, QUICK_LISTS, k, m);
  }

  lemma UpperIndexIs(h: Heap, e: nat, x: nat, m: nat)
    requires FitsBut(h, e) && UpperAt(h, x, m)
    ensures UpperIndex(h, x) == m
  {
    var k := UpperIndex(h, x);
    assert UpperAt(h, x, k);
    assert DistinctOk(h, QUICK_LISTS, m, k) && DistinctOk(h, QUICK_LISTS, k, m);
  }

  lemma LowerCanMerge(h: Heap, x: nat, i: nat)
    requires Fits(h) && Is(h, x, Held) && LowerAt(h, x, i)
    ensures CanMergeLower(h, i, x) && !UpperAt(h, x, i)
  {
    OnList(h, 0, i);
    assert BlockOk(h, x);
  }

  lemma UpperCanMerge(h: Heap, x: nat, j: nat)
    requires Fits(h) && Is(h, x, Held) && UpperAt(h, x, j)
    ensures CanMergeUpper(h, j, x) && !LowerAt(h, x, j)
  {
    OnList(h, 0, j);
    assert BlockOk(h, x);
  }

  // After the lower merge: no lower neighbour is left, and the upper one has
  // moved up by one place.
  lemma AfterLower(h: Heap, x: nat, i: nat, m: nat)
    requires Fits(h) && Is(h, x, Held) && LowerAt(h, x, i)
    ensures CanMergeLower(h, i, x)
    ensures var g, lo := MergedLower(h, i, x), h.lists[QUICK_LISTS][i];
      && Fits(g) && Is(g, lo, Held) && g.lists[QUICK_LISTS] == Without(h.lists[QUICK_LISTS], i)
      && !LowerAt(g, lo, m)
      && (UpperAt(g, lo, m) <==> UpperAt(h, x, if m < i then m else m + 1))
      && lo + HEADER + Get(g.mem, lo) == x + HEADER + Get(h.mem, x)
  {
    LowerCanMerge(h, x, i);
    var g, lo := MergedLower(h, i, x), h.lists[QUICK_LISTS][i];
    MergeLowerWorks(h, i, x);
    OnList(h, 0, i);
    assert BlockOk(h, x) && BlockOk(g, lo);
    if m < |g.lists[QUICK_LISTS]| {
      var k := if m < i then m else m + 1;
      OnList(h, 0, k);
      OnList(g, 0, m);
      assert Apart(h, h.lists[QUICK_LISTS][k], lo);
    }
  }

  // After the upper merge the list has the same places, and the merged block
  // touches no upper neighbour.
  lemma AfterUpper(h: Heap, x: nat, j: nat, m: nat)
    requires Fits(h) && Is(h, x, Held) && UpperAt(h, x, j)
    ensures CanMergeUpper(h, j, x)
    ensures var g := MergedUpper(h, j, x);
      && FitsBut(g, x) && Is(g, x, Free(QUICK_LISTS)) && g.lists[QUICK_LISTS] == Replaced(h.lists[QUICK_LISTS], j, x)
      && (LowerAt(g, x, m) <==> LowerAt(h, x, m))
      && !UpperAt(g, x, m)
  {
    UpperCanMerge(h, x, j);
    var g := MergedUpper(h, j, x);
    MergeUpperWorks(h, j, x);
    assert g.lists[QUICK_LISTS][j] == x;
    OnList(g, x, j);
    if m < |g.lists[QUICK_LISTS]| {
      OnList(g, x, m);
      OnList(h, 0, m);
      if m != j { assert DistinctOk(h, QUICK_LISTS, m, j) && DistinctOk(h, QUICK_LISTS, j, m); }
      assert Apart(g, x, g.lists[QUICK_LISTS][m]);
    }
  }

  // The heap after the scan and what follows it.
  ghost function Coalesced(h: Heap, x: nat): Heap
    requires Fits(h) && Is(h, x, Held)
  {
    var row, i, j := h.lists[QUICK_LISTS], LowerIndex(h, x), UpperIndex(h, x);
    if i < j then
      AfterLower(h, x, i, j - 1);
      var lo, g := row[i], MergedLower(h, i, x);
      if j < |row| then
        UpperCanMerge(g, lo, j - 1);
        MergedUpper(g, j - 1, lo)
      else
        Insert(g, QUICK_LISTS, 0, lo)
    else if j < |row| then
      AfterUpper(h, x, j, i);
      var g := MergedUpper(h, j, x);
      if i < |row| then
        LowerCanDrop(g, x, i);
        Dropped(g, i, x)
      else
        g
    else
      Insert(h, QUICK_LISTS, 0, x)
  }

  lemma LowerCanDrop(h: Heap, x: nat, i: nat)
    requires FitsBut(h, x) && Is(h, x, Free(QUICK_LISTS)) && LowerAt(h, x, i)
    ensures CanDrop(h, i, x)
  {
    OnList(h, x, i);
  }

  // ---- The scan ----

  // How far the scan has come: nothing merged, the lower neighbour merged, the
  // upper one merged, or nothing left to merge.
  datatype Stage = Scanning | LowerMerged | UpperMerged | Settled

  // The scan from h0 with block x0 in flight stands before the n-th block of
  // h's general list, with x in hand.
  ghost predicate Reached(h0: Heap, x0: nat, s: Stage, h: Heap, x: nat, n: nat)
    requires Fits(h0) && Is(h0, x0, Held)
  {
    var row, i, j := h0.lists[QUICK_LISTS], LowerIndex(h0, x0), UpperIndex(h0, x0);
    && FitsBut(h, Exception(s, x)) && n <= |h.lists[QUICK_LISTS]|
    && (forall m: nat {:trigger LowerAt(h, x, m)} :: m < n ==> !LowerAt(h, x, m))
    && (forall m: nat {:trigger UpperAt(h, x, m)} :: m < n ==> !UpperAt(h, x, m))
    && match s
       case Scanning => h == h0 && x == x0
       case LowerMerged => i < j && CanMergeLower(h0, i, x0) && h == MergedLower(h0, i, x0) && x == row[i]
       case UpperMerged => j < n && j < |row| && CanMergeUpper(h0, j, x0) && h == MergedUpper(h0, j, x0) && x == x0
       case Settled => h == Coalesced(h0, x0) && NothingTouches(h, x)
  }

  ghost predicate NothingTouches(h: Heap, x: nat)
    requires |h.lists| == LISTS
  {
    forall m: nat {:trigger LowerAt(h, x, m)} {:trigger UpperAt(h, x, m)} :: !LowerAt(h, x, m) && !UpperAt(h, x, m)
  }

  // The block that may still touch a free block below it.
  function Exception(s: Stage, x: nat): nat { if s == UpperMerged then x else 0 }

  lemma ReachedFits(h0: Heap, x0: nat, s: Stage, h: Heap, x: nat, n: nat)
    requires Fits(h0) && Is(h0, x0, Held) && Reached(h0, x0, s, h, x, n)
    ensures FitsBut(h, Exception(s, x)) && |h.lists| == LISTS && n <= |h.lists[QUICK_LISTS]|
  {
  }

  lemma PassBlock(h0: Heap, x0: nat, s: Stage, h: Heap, x: nat, n: nat)
    requires Fits(h0) && Is(h0, x0, Held) && Reached(h0, x0, s, h, x, n) && n < |h.lists[QUICK_LISTS]|
    requires !LowerAt(h, x, n) && !UpperAt(h, x, n)
    ensures Reached(h0, x0, s, h, x, n + 1)
  {
  }

  lemma MeetLower(h0: Heap, x0: nat, s: Stage, h: Heap, x: nat, n: nat)
    requires Fits(h0) && Is(h0, x0, Held) && Reached(h0, x0, s, h, x, n) && LowerAt(h, x, n)
    ensures s == Scanning || s == UpperMerged
    ensures s == Scanning ==>
      CanMergeLower(h, n, x) && Reached(h0, x0, LowerMerged, MergedLower(h, n, x), h.lists[QUICK_LISTS][n], 0)
    ensures s == UpperMerged ==>
      CanDrop(h, n, x) && Reached(h0, x0, Settled, Dropped(h, n, x), h.lists[QUICK_LISTS][n], 0)
  {
    match s
    case Scanning =>
      AfterLower(h, x, n, 0);
      LowerIndexIs(h, 0, x, n);
      LowerCanMerge(h, x, n);
      var j := UpperIndex(h, x);
      assert !UpperAt(h, x, j) || j > n;
    case LowerMerged =>
      AfterLower(h0, x0, LowerIndex(h0, x0), n);
    case UpperMerged =>
      var j := UpperIndex(h0, x0);
      AfterUpper(h0, x0, j, n);
      LowerIndexIs(h0, 0, x0, n);
      LowerCanDrop(h, x, n);
      DropWorks(h, n, x);
      assert n < |h0.lists[QUICK_LISTS]|;
      forall m: nat
        ensures !LowerAt(Dropped(h, n, x), h.lists[QUICK_LISTS][n], m)
        ensures !UpperAt(Dropped(h, n, x), h.lists[QUICK_LISTS][n], m) {
        NothingTouchesDropped(h, n, x, m);
      }
    case Settled =>
  }

  lemma NothingTouchesDropped(h: Heap, n: nat, x: nat, m: nat)
    requires CanDrop(h, n, x)
    ensures var g, lo := Dropped(h, n, x), h.lists[QUICK_LISTS][n];
      |g.lists| == LISTS && !LowerAt(g, lo, m) && !UpperAt(g, lo, m)
  {
    var g, lo := Dropped(h, n, x), h.lists[QUICK_LISTS][n];
    DropWorks(h, n, x);
    OnList(h, x, n);
    assert BlockOk(h, x);
    if m < |g.lists[QUICK_LISTS]| {
      OnList(g, 0, m);
      DroppedIsApart(h, n, x, g.lists[QUICK_LISTS][m]);
      assert Apart(g, x, g.lists[QUICK_LISTS][m]);
      assert Get(g.mem, lo) == h.blocks[lo].len + h.blocks[x].len - HEADER;
    }
  }

  lemma MeetUpperFirst(h: Heap, x: nat, n: nat)
    requires Fits(h) && Is(h, x, Held) && Reached(h, x, Scanning, h, x, n) && UpperAt(h, x, n)
    ensures CanMergeUpper(h, n, x) && Reached(h, x, UpperMerged, MergedUpper(h, n, x), x, n + 1)
  {
    UpperIndexIs(h, 0, x, n);
    AfterUpper(h, x, n, n);
    var g := MergedUpper(h, n, x);
    forall m: nat ensures !UpperAt(g, x, m) && (LowerAt(g, x, m) ==> LowerAt(h, x, m)) { AfterUpper(h, x, n, m); }
    UpperCanMerge(h, x, n);
  }

  // An upper merge with no lower neighbour left settles the scan.
  lemma UpperAfterLower(h: Heap, x: nat, n: nat)
    requires Fits(h) && Is(h, x, Held) && UpperAt(h, x, n)
    requires forall m: nat {:trigger LowerAt(h, x, m)} :: !LowerAt(h, x, m)
    ensures CanMergeUpper(h, n, x) && Fits(MergedUpper(h, n, x))
    ensures |MergedUpper(h, n, x).lists[QUICK_LISTS]| == |h.lists[QUICK_LISTS]|
    ensures |MergedUpper(h, n, x).lists| == LISTS && NothingTouches(MergedUpper(h, n, x), x)
  {
    AfterUpper(h, x, n, n);
    var g := MergedUpper(h, n, x);
    forall m: nat ensures !UpperAt(g, x, m) && !LowerAt(g, x, m) {
      AfterUpper(h, x, n, m);
      assert !LowerAt(h, x, m);
    }
    SettledFits(g, x);
  }

  // With no lower neighbour left, the merged block closes its own exception.
  lemma SettledFits(h: Heap, x: nat)
    requires FitsBut(h, x) && Is(h, x, Free(QUICK_LISTS))
    requires forall m: nat {:trigger LowerAt(h, x, m)} :: !LowerAt(h, x, m)
    ensures Fits(h)
  {
    forall b: nat ensures Apart(h, b, x) {
      if Is(h, b, Free(QUICK_LISTS)) && End(h, b) == x {
        assert BlockOk(h, b);
        var m: nat :| m < |h.lists[QUICK_LISTS]| && h.lists[QUICK_LISTS][m] == b;
        assert LowerAt(h, x, m);
      }
    }
    CloseException(h, x);
  }

  lemma MeetUpperSecond(h0: Heap, x0: nat, h: Heap, x: nat, n: nat)
    requires Fits(h0) && Is(h0, x0, Held) && Reached(h0, x0, LowerMerged, h, x, n) && UpperAt(h, x, n)
    ensures CanMergeUpper(h, n, x) && Reached(h0, x0, Settled, MergedUpper(h, n, x), x, n + 1)
  {
    hide BlockOk, LinkOk, Mul4, MergedLower, MergedUpper, Dropped, Insert;
    var i := LowerIndex(h0, x0);
    AfterLower(h0, x0, i, n);
    UpperIndexIs(h0, 0, x0, if n < i then n else n + 1);
    forall m: nat ensures !LowerAt(h, x, m) { AfterLower(h0, x0, i, m); }
    UpperAfterLower(h, x, n);
  }

  lemma MeetUpper(h0: Heap, x0: nat, s: Stage, h: Heap, x: nat, n: nat)
    requires Fits(h0) && Is(h0, x0, Held) && Reached(h0, x0, s, h, x, n) && UpperAt(h, x, n) && !LowerAt(h, x, n)
    ensures s == Scanning || s == LowerMerged
    ensures CanMergeUpper(h, n, x)
    ensures s == Scanning ==> Reached(h0, x0, UpperMerged, MergedUpper(h, n, x), x, n + 1)
    ensures s == LowerMerged ==> Reached(h0, x0, Settled, MergedUpper(h, n, x), x, n + 1)
  {
    match s
    case Scanning =>
      MeetUpperFirst(h, x, n);
    case LowerMerged =>
      MeetUpperSecond(h0, x0, h, x, n);
    case UpperMerged =>
      AfterUpper(h0, x0, UpperIndex(h0, x0), n);
    case Settled =>
  }

  // At the end of the list the block is pushed if no upper neighbour took it.
  lemma EndOfScan(h0: Heap, x0: nat, s: Stage, h: Heap, x: nat)
    requires Fits(h0) && Is(h0, x0, Held) && |h.lists| == LISTS && Reached(h0, x0, s, h, x, |h.lists[QUICK_LISTS]|)
    ensures Fits(h)
    ensures s == Scanning || s == LowerMerged ==>
      CanInsert(h, 0, QUICK_LISTS, 0, x) && Coalesced(h0, x0) == Insert(h, QUICK_LISTS, 0, x)
    ensures s == UpperMerged || s == Settled ==> Coalesced(h0, x0) == h
  {
    match s
    case Scanning => NoUpperMayPush(h, x);
    case LowerMerged =>
      var i, j := LowerIndex(h0, x0), UpperIndex(h0, x0);
      AfterLower(h0, x0, i, j - 1);
      assert j == |h0.lists[QUICK_LISTS]|;
      NoUpperMayPush(h, x);
    case UpperMerged =>
      var i := LowerIndex(h0, x0);
      AfterUpper(h0, x0, UpperIndex(h0, x0), i);
      assert !LowerAt(h, x, i);
      SettledFits(h, x);
    case Settled =>
  }

  lemma NoUpperMayPush(h: Heap, x: nat)
    requires Fits(h) && Is(h, x, Held)
    requires forall m: nat {:trigger UpperAt(h, x, m)} :: m < |h.lists[QUICK_LISTS]| ==> !UpperAt(h, x, m)
    ensures CanInsert(h, 0, QUICK_LISTS, 0, x)
  {
    assert BlockOk(h, x);
    forall b: nat {:trigger Is(h, b, Free(QUICK_LISTS))} | Is(h, b, Free(QUICK_LISTS)) ensures End(h, x) != b {
      assert BlockOk(h, b);
      var m: nat :| m < |h.lists[QUICK_LISTS]| && h.lists[QUICK_LISTS][m] == b;
      assert !UpperAt(h, x, m);
    }
  }

  // ---- What freeing achieves ----

  // The lower neighbour is met after the upper one has been merged.
  ghost predicate UpperFirst(h: Heap, x: nat)
    requires |h.lists| == LISTS
  {
    UpperIndex(h, x) < LowerIndex(h, x) < |h.lists[QUICK_LISTS]|
  }

  lemma CoalescedKeeps(h: Heap, x: nat)
    requires Fits(h) && Is(h, x, Held)
    ensures Fits(Coalesced(h, x)) && LiveKept(h, Coalesced(h, x))
  {
    var row, i, j := h.lists[QUICK_LISTS], LowerIndex(h, x), UpperIndex(h, x);
    if i < j {
      LowerFirstKeeps(h, x);
    } else if j < |row| {
      AfterUpper(h, x, j, i);
      var g := MergedUpper(h, j, x);
      MergeUpperWorks(h, j, x);
      if i < |row| {
        LowerCanDrop(g, x, i);
        DropWorks(g, i, x);
        LiveKeptChain(h, g, Dropped(g, i, x));
      } else {
        forall m: nat ensures !LowerAt(g, x, m) {
          AfterUpper(h, x, j, m);
          if LowerAt(h, x, m) { LowerIndexIs(h, 0, x, m); }
        }
        SettledFits(g, x);
      }
    } else {
      LonelyKeeps(h, x, i);
    }
  }

  lemma LonelyKeeps(h: Heap, x: nat, i: nat)
    requires Fits(h) && Is(h, x, Held)
    requires LowerIndex(h, x) == UpperIndex(h, x) == |h.lists[QUICK_LISTS]|
    ensures Fits(Insert(h, QUICK_LISTS, 0, x)) && LiveKept(h, Insert(h, QUICK_LISTS, 0, x))
  {
    forall m: nat ensures !LowerAt(h, x, m) && !UpperAt(h, x, m) {
      if LowerAt(h, x, m) { LowerIndexIs(h, 0, x, m); }
      if UpperAt(h, x, m) { UpperIndexIs(h, 0, x, m); }
    }
    NoUpperMayPush(h, x);
    PushCloses(h, x);
  }

  // A block that touches no free block may be pushed on the general list.
  lemma PushCloses(h: Heap, x: nat)
    requires CanInsert(h, 0, QUICK_LISTS, 0, x)
    requires forall m: nat {:trigger LowerAt(h, x, m)} :: !LowerAt(h, x, m)
    ensures Fits(Insert(h, QUICK_LISTS, 0, x)) && LiveKept(h, Insert(h, QUICK_LISTS, 0, x))
  {
    var g := Insert(h, QUICK_LISTS, 0, x);
    InsertKeepsFit(h, 0, QUICK_LISTS, 0, x);
    OnList(g, x, 0);
    forall m: nat ensures !LowerAt(g, x, m) {
      if 0 < m < |g.lists[QUICK_LISTS]| {
        OnList(h, 0, m - 1);
        OnList(g, x, m);
        assert !LowerAt(h, x, m - 1);
      }
    }
    SettledFits(g, x);
  }

  lemma LowerFirstKeeps(h: Heap, x: nat)
    requires Fits(h) && Is(h, x, Held) && LowerIndex(h, x) < UpperIndex(h, x)
    ensures Fits(Coalesced(h, x)) && LiveKept(h, Coalesced(h, x))
  {
    hide MergedLower, MergedUpper, BlockOk, LinkOk, Mul4, LiveKept;
    var row, i, j := h.lists[QUICK_LISTS], LowerIndex(h, x), UpperIndex(h, x);
    AfterLower(h, x, i, j - 1);
    var lo, g := row[i], MergedLower(h, i, x);
    MergeLowerWorks(h, i, x);
    forall m: nat ensures !LowerAt(g, lo, m) && (UpperAt(g, lo, m) ==> j < |row|) {
      AfterLower(h, x, i, m);
      if UpperAt(g, lo, m) { UpperIndexIs(h, 0, x, if m < i then m else m + 1); }
    }
    if j < |row| {
      UpperAfterLower(g, lo, j - 1);
      MergeUpperWorks(g, j - 1, lo);
      LiveKeptChain(h, g, MergedUpper(g, j - 1, lo));
    } else {
      NoUpperMayPush(g, lo);
      PushCloses(g, lo);
      LiveKeptChain(h, g, Insert(g, QUICK_LISTS, 0, lo));
    }
  }

  // Blocks b become c when block x is freed with its lower neighbour at place i
  // of the row and its upper one at place j: the five ways the scan can go.
  ghost predicate Outcome(b: map<nat, Block>, row: seq<nat>, x: nat, i: nat, j: nat, c: map<nat, Block>)
    requires x in b
  {
    && (i < |row| ==> row[i] in b) && (j < |row| ==> row[j] in b)
    && if i < |row| then
         var lo: nat := row[i];
         if j >= |row| then c == (b - {x})[lo := Block(b[lo].len + b[x].len, Free(QUICK_LISTS))]
         else
           var hi: nat := row[j];
           if i < j then c == (b - {x, hi})[lo := Block(b[lo].len + b[x].len + b[hi].len, Free(QUICK_LISTS))]
           else c == (b - {hi})[x := Block(b[x].len + b[hi].len, Free(QUICK_LISTS))][lo := Block(b[lo].len, Lost)]
       else if j < |row| then
         var hi: nat := row[j];
         c == (b - {hi})[x := Block(b[x].len + b[hi].len, Free(QUICK_LISTS))]
       else c == b[x := Block(b[x].len, Free(QUICK_LISTS))]
  }

  lemma MergedBlocks(h: Heap, n: nat, x: nat)
    requires CanMergeLower(h, n, x) || CanMergeUpper(h, n, x)
    ensures CanMergeLower(h, n, x) ==> var lo := h.lists[QUICK_LISTS][n];
      MergedLower(h, n, x).blocks == (h.blocks - {x})[lo := Block(h.blocks[lo].len + h.blocks[x].len, Held)]
    ensures CanMergeUpper(h, n, x) ==> var hi := h.lists[QUICK_LISTS][n];
      MergedUpper(h, n, x).blocks ==
        (h.blocks - {hi})[x := Block(h.blocks[x].len + h.blocks[hi].len, Free(QUICK_LISTS))]
  {
    OnList(h, 0, n);
    assert BlockOk(h, x);
  }

  lemma LowerFirstBlocks(h: Heap, x: nat)
    requires Fits(h) && Is(h, x, Held) && LowerIndex(h, x) < UpperIndex(h, x)
    ensures Outcome(h.blocks, h.lists[QUICK_LISTS], x, LowerIndex(h, x), UpperIndex(h, x), Coalesced(h, x).blocks)
  {
    hide MergedLower, MergedUpper, BlockOk, LinkOk, Mul4;
    var row, i, j := h.lists[QUICK_LISTS], LowerIndex(h, x), UpperIndex(h, x);
    LowerCanMerge(h, x, i);
    AfterLower(h, x, i, j - 1);
    MergedBlocks(h, i, x);
    OnList(h, 0, i);
    var lo, g := row[i], MergedLower(h, i, x);
    if j < |row| {
      UpperCanMerge(h, x, j);
      UpperCanMerge(g, lo, j - 1);
      MergedBlocks(g, j - 1, lo);
      assert g.lists[QUICK_LISTS][j - 1] == row[j];
    }
  }

  lemma UpperFirstBlocks(h: Heap, x: nat)
    requires Fits(h) && Is(h, x, Held) && UpperIndex(h, x) < LowerIndex(h, x)
    ensures Outcome(h.blocks, h.lists[QUICK_LISTS], x, LowerIndex(h, x), UpperIndex(h, x), Coalesced(h, x).blocks)
  {
    hide MergedLower, MergedUpper, BlockOk, LinkOk, Mul4;
    var row, i, j := h.lists[QUICK_LISTS], LowerIndex(h, x), UpperIndex(h, x);
    UpperCanMerge(h, x, j);
    AfterUpper(h, x, j, i);
    MergedBlocks(h, j, x);
    if i < |row| {
      LowerCanMerge(h, x, i);
      OnList(h, 0, i);
      LowerCanDrop(MergedUpper(h, j, x), x, i);
      assert Replaced(row, j, x)[i] == row[i];
    }
  }

  lemma CoalescedBlocks(h: Heap, x: nat)
    requires Fits(h) && Is(h, x, Held)
    ensures Outcome(h.blocks, h.lists[QUICK_LISTS], x, LowerIndex(h, x), UpperIndex(h, x), Coalesced(h, x).blocks)
  {
    var i, j := LowerIndex(h, x), UpperIndex(h, x);
    if i < j {
      LowerFirstBlocks(h, x);
    } else if j < i {
      UpperFirstBlocks(h, x);
    } else if i < |h.lists[QUICK_LISTS]| {
      LowerCanMerge(h, x, i);
    }
  }

  // The general list afterwards: the merged block stands where the upper
  // neighbour stood, or in front of all; the lower neighbour is gone.
  ghost function RowAfter(row: seq<nat>, x: nat, i: nat, j: nat): seq<nat> {
    if i < |row| && i < j then
      var rest := row[..i] + row[i + 1..];
      if j < |row| then rest[j - 1 := row[i]] else [row[i]] + rest
    else if j < |row| then
      var rest := row[j := x];
      if i < |row| then rest[..i] + rest[i + 1..] else rest
    else [x] + row
  }

  lemma InsertedFirst(h: Heap, l: nat, x: nat)
    requires |h.head| == LISTS && |h.lists| == LISTS && l < LISTS && x in h.blocks
    ensures Insert(h, l, 0, x).lists == h.lists[l := [x] + h.lists[l]]
  {
    assert h.lists[l][..0] + [x] + h.lists[l][0..] == [x] + h.lists[l];
  }

  lemma CoalescedRow(h: Heap, x: nat)
    requires Fits(h) && Is(h, x, Held)
    ensures var row := h.lists[QUICK_LISTS];
      Coalesced(h, x).lists == h.lists[QUICK_LISTS := RowAfter(row, x, LowerIndex(h, x), UpperIndex(h, x))]
  {
    hide BlockOk, LinkOk, Mul4;
    var i, j, row := LowerIndex(h, x), UpperIndex(h, x), h.lists[QUICK_LISTS];
    if i < j {
      AfterLower(h, x, i, j - 1);
      var lo, g := row[i], MergedLower(h, i, x);
      if j < |row| {
        UpperCanMerge(g, lo, j - 1);
        MergeUpperWorks(g, j - 1, lo);
      } else {
        InsertedFirst(g, QUICK_LISTS, lo);
      }
    } else if j < |row| {
      AfterUpper(h, x, j, i);
      MergeUpperWorks(h, j, x);
      if i < |row| { LowerCanDrop(MergedUpper(h, j, x), x, i); }
    } else {
      InsertedFirst(h, QUICK_LISTS, x);
    }
  }

  // Exactly one block is lost when the upper neighbour is met first, none otherwise.
  lemma LostExactly(h: Heap, x: nat, b: nat)
    requires Fits(h) && Is(h, x, Held)
    ensures Is(Coalesced(h, x), b, Lost) <==>
      Is(h, b, Lost) || (UpperFirst(h, x) && b == h.lists[QUICK_LISTS][LowerIndex(h, x)])
  {
    hide Coalesced, BlockOk, LinkOk, Mul4;
    CoalescedBlocks(h, x);
    var row, i, j := h.lists[QUICK_LISTS], LowerIndex(h, x), UpperIndex(h, x);
    if i < |row| { LowerCanMerge(h, x, i); OnList(h, 0, i); }
    if j < |row| { UpperCanMerge(h, x, j); OnList(h, 0, j); }
  }

  // The freed bytes end up inside one block of the general list, together with
  // the upper neighbour and, unless it is lost, the lower one.
  lemma FreedIsFree(h: Heap, x: nat) returns (f: nat)
    requires Fits(h) && Is(h, x, Held)
    ensures var c, row, i, j := Coalesced(h, x), h.lists[QUICK_LISTS], LowerIndex(h, x), UpperIndex(h, x);
      && Is(c, f, Free(QUICK_LISTS))
      && f == (if i < |row| && !UpperFirst(h, x) then row[i] else x)
      && End(c, f) == (if j < |row| && row[j] in h.blocks then End(h, row[j]) else End(h, x))
  {
    hide Coalesced, BlockOk, LinkOk, Mul4;
    CoalescedBlocks(h, x);
    var row, i, j := h.lists[QUICK_LISTS], LowerIndex(h, x), UpperIndex(h, x);
    if i < |row| { LowerCanMerge(h, x, i); OnList(h, 0, i); }
    if j < |row| { UpperCanMerge(h, x, j); OnList(h, 0, j); }
    f := if i < |row| && !UpperFirst(h, x) then row[i] else x;
  }

  // Blocks that are neither freed nor neighbours stay as they were.
  lemma OthersStay(h: Heap, x: nat, b: nat)
    requires Fits(h) && Is(h, x, Held) && b in h.blocks && b != x && h.blocks[b].kind != Free(QUICK_LISTS)
    ensures b in Coalesced(h, x).blocks && Coalesced(h, x).blocks[b] == h.blocks[b]
  {
    hide Coalesced, BlockOk, LinkOk, Mul4;
    CoalescedBlocks(h, x);
    var row, i, j := h.lists[QUICK_LISTS], LowerIndex(h, x), UpperIndex(h, x);
    if i < |row| { OnList(h, 0, i); }
    if j < |row| { OnList(h, 0, j); }
  }
}
