// kmalloc, kfree and krealloc: four quick lists of small blocks and a general
// list whose neighbours are coalesced.
module KernelHeap {
  import opened Carving
  import opened Coalescing
  import opened HeapBlocks

  // ALIGN: up to the next multiple of 4.
  function Align(x: nat): nat { (x + 3) / 4 * 4 }

  // ALIGNWITH(x, MMU_PAGE_SIZE).
  function PageAlign(x: nat): nat { (x + (PAGE_SIZE - 1)) / PAGE_SIZE * PAGE_SIZE }

  lemma AlignUp(x: nat)
    ensures x <= Align(x) < x + 4 && Mul4(Align(x))
  {
    var q := (x + 3) / 4;
    assert 4 * q % 4 == 0;
  }

  lemma AlignSame(x: nat)
    requires Mul4(x + HEADER)
    ensures Align(x) == x
  {
  }

  lemma PageAlignUp(x: nat)
    ensures x <= PageAlign(x) < x + PAGE_SIZE && Mul4(PageAlign(x))
  {
    var q := (x + (PAGE_SIZE - 1)) / PAGE_SIZE;
    assert PageAlign(x) == 4 * (1024 * q);
    assert 4 * (1024 * q) % 4 == 0;
  }

  // The only multiple of the page size in that range.
  lemma PageAligned(x: nat)
    ensures PageAlign(x) % 4096 == 0 && x <= PageAlign(x) < x + 4096
  {
    var q := (x + (PAGE_SIZE - 1)) / PAGE_SIZE;
    assert PageAlign(x) == 4096 * q;
  }

  lemma PageAlignGrows(x: nat, inc: nat)
    ensures PageAlign(x) <= PageAlign(x + inc)
    ensures PageAlign(x + inc) == PageAlign(x) + PAGE_SIZE * ((PageAlign(x + inc) - PageAlign(x)) / PAGE_SIZE)
  {
    var p, q := (x + (PAGE_SIZE - 1)) / PAGE_SIZE, (x + inc + (PAGE_SIZE - 1)) / PAGE_SIZE;
    assert PageAlign(x + inc) - PageAlign(x) == PAGE_SIZE * (q - p);
  }

  const WORD := 0x1_0000_0000

  // A word taken as a signed number.
  function Signed(x: nat): int { if x < WORD / 2 then x else x - WORD }

  // ksbrk takes a request that is rounded to half the address space or more for
  // a negative one, which moves the end of the heap back.
  lemma LargeRequestMovesBack(size: nat)
    requires PageAlign(size + HEADER) < WORD
    ensures Signed(PageAlign(size + HEADER)) < 0 <==> PageAlign(size + HEADER) >= WORD / 2
    ensures Signed(PageAlign(size + HEADER)) >= 0 ==> Signed(PageAlign(size + HEADER)) >= size + HEADER
  {
    PageAlignUp(size + HEADER);
  }

  // The block size of a quick list.
  function ClassSize(l: nat): nat
    requires l <= QUICK_LISTS
  {
    if l == 0 then 8 else if l == 1 then 16 else if l == 2 then 32 else if l == 3 then 64 else 128
  }

  // The list a size belongs to.
  function ListFor(size: nat): (l: nat)
    ensures l <= QUICK_LISTS
    ensures l < QUICK_LISTS ==> size <= ClassSize(l)
    ensures l == QUICK_LISTS <==> size > 64
  {
    if size <= 8 then 0 else if size <= 16 then 1 else if size <= 32 then 2 else if size <= 64 then 3 else 4
  }

  // The heap after block x is freed.
  ghost function Freed(h: Heap, x: nat): Heap
    requires Fits(h) && x in h.blocks && !h.blocks[x].kind.Free? && h.blocks[x].kind != Lost
  {
    assert BlockOk(h, x);
    MarkKeepsFit(h, 0, x, Held);
    var g, l := Mark(h, x, Held), ListFor(h.blocks[x].len - HEADER);
    if l < QUICK_LISTS then Insert(g, l, 0, x) else Coalesced(g, x)
  }

  // Block x is in front of list l; every other list and block is as it was, and
  // of the memory only the link in x changed.
  ghost predicate Pushed(h0: Heap, h: Heap, x: nat, l: nat) {
    && x in h0.blocks && l < |h0.lists| && Is(h, x, Free(l))
    && h.blocks == h0.blocks[x := Block(h0.blocks[x].len, Free(l))]
    && h.lists == h0.lists[l := [x] + h0.lists[l]]
    && forall w: nat {:trigger Get(h.mem, w)} :: w != x + 4 ==> Get(h.mem, w) == Get(h0.mem, w)
  }

  // A large block is coalesced: what becomes of the blocks and of the list.
  ghost predicate Merged(h0: Heap, h: Heap, x: nat)
    requires Fits(h0) && x in h0.blocks
  {
    var row, i, j := h0.lists[QUICK_LISTS], LowerIndex(h0, x), UpperIndex(h0, x);
    && Outcome(h0.blocks, row, x, i, j, h.blocks)
    && h.lists == h0.lists[QUICK_LISTS := RowAfter(row, x, i, j)]
  }

  // Where kfree leaves block x, by the size in its header.
  ghost predicate Placed(h0: Heap, h: Heap, x: nat) {
    var size := Get(h0.mem, x);
    && (size <= 8 ==> Pushed(h0, h, x, 0))
    && (8 < size <= 16 ==> Pushed(h0, h, x, 1))
    && (16 < size <= 32 ==> Pushed(h0, h, x, 2))
    && (32 < size <= 64 ==> Pushed(h0, h, x, 3))
    && (size > 64 ==> x in h0.blocks && Fits(Mark(h0, x, Held)) && Merged(Mark(h0, x, Held), h, x))
  }

  lemma FreedIsPlaced(h: Heap, x: nat)
    requires Fits(h) && x in h.blocks && !h.blocks[x].kind.Free? && h.blocks[x].kind != Lost
    ensures Placed(h, Freed(h, x), x)
  {
    assert BlockOk(h, x);
    MarkKeepsFit(h, 0, x, Held);
    hide BlockOk, LinkOk, Mul4, Coalesced, Outcome;
    var g, l := Mark(h, x, Held), ListFor(h.blocks[x].len - HEADER);
    if l < QUICK_LISTS {
      InsertedFirst(g, l, x);
    } else {
      CoalescedBlocks(g, x);
      CoalescedRow(g, x);
    }
  }

  lemma FreedKeeps(h: Heap, x: nat)
    requires Fits(h) && x in h.blocks && !h.blocks[x].kind.Free? && h.blocks[x].kind != Lost
    ensures Fits(Freed(h, x)) && LiveKept(Mark(h, x, Held), Freed(h, x))
    ensures Fits(Mark(h, x, Held)) && |h.lists| == LISTS && Get(h.mem, x) == h.blocks[x].len - HEADER
    ensures forall a: nat {:trigger Is(Freed(h, x), a, Held)} {:trigger Is(Freed(h, x), a, Live)} ::
      (Is(Freed(h, x), a, Held) ==> a != x && Is(h, a, Held)) && (Is(Freed(h, x), a, Live) ==> a != x && Is(h, a, Live))
  {
    assert BlockOk(h, x);
    MarkKeepsFit(h, 0, x, Held);
    var g, l := Mark(h, x, Held), ListFor(h.blocks[x].len - HEADER);
    if l < QUICK_LISTS {
      InsertKeepsFit(g, 0, l, 0, x);
    } else {
      CoalescedKeeps(g, x);
      forall a: nat
        ensures (Is(Freed(h, x), a, Held) ==> a != x && Is(h, a, Held))
        ensures (Is(Freed(h, x), a, Live) ==> a != x && Is(h, a, Live)) {
        CoalescedKinds(g, x, a);
      }
    }
  }

  // The heap after a fresh block for `size` bytes is added to the general list.
  ghost function Refreshed(h: Heap, size: nat): (r: Heap)
    requires Fits(h)
    ensures Fits(r)
  {
    PageAlignUp(size + HEADER);
    var len := PageAlign(size + HEADER);
    if len >= HEADER + 4 then
      GrowKeepsFit(h, len);
      FreedKeeps(Grow(h, len), h.end);
      Freed(Grow(h, len), h.end)
    else h
  }

  lemma CoalescedKinds(h: Heap, x: nat, a: nat)
    requires Fits(h) && Is(h, x, Held)
    ensures var c := Coalesced(h, x).blocks;
      a in c && !c[a].kind.Free? && c[a].kind != Lost ==> a != x && Is(h, a, c[a].kind)
  {
    CoalescedBlocks(h, x);
    hide Coalesced, FitsBut;
  }

  // The n-th block of list l is handed out for `size` bytes, split when the rest
  // can hold a header and some payload.
  ghost function Taken(h: Heap, l: nat, n: nat, size: nat): Heap
    requires Fits(h) && l < LISTS && n < |h.lists[l]| && h.lists[l][n] in h.blocks
  {
    assert BlockOk(h, h.lists[l][n]) && LinkOk(h, l, n);
    if h.blocks[h.lists[l][n]].len - HEADER > Align(size) + HEADER then Split(h, l, n, Align(size))
    else Unlink(h, l, n, Live)
  }

  lemma TakenKeeps(h: Heap, l: nat, n: nat, size: nat)
    requires Fits(h) && l < LISTS && n < |h.lists[l]| && h.lists[l][n] in h.blocks
    requires h.blocks[h.lists[l][n]].len - HEADER >= size > 0
    ensures Fits(Taken(h, l, n, size)) && LiveKept(h, Taken(h, l, n, size))
    ensures var g, x := Taken(h, l, n, size), h.lists[l][n];
      && !Is(h, x, Live) && Is(g, x, Live) && size <= g.blocks[x].len - HEADER <= Align(size) + HEADER
      && forall b: nat {:trigger g.blocks[b]} :: b in g.blocks && b != x && !g.blocks[b].kind.Free? ==>
        Is(h, b, g.blocks[b].kind)
  {
    var x := h.lists[l][n];
    assert BlockOk(h, x) && LinkOk(h, l, n);
    AlignUp(size);
    if h.blocks[x].len - HEADER > Align(size) + HEADER {
      SplitRoom(h.blocks[x].len, Align(size));
      SplitKeepsFit(h, l, n, Align(size));
      SplitKeepsLive(h, l, n, Align(size));
    } else {
      UnlinkKeepsFit(h, 0, l, n, Live);
      UnlinkKeepsLive(h, 0, l, n, Live);
    }
  }

  lemma TakenMemory(h: Heap, l: nat, n: nat, size: nat)
    requires Fits(h) && l < LISTS && n < |h.lists[l]| && h.lists[l][n] in h.blocks
    requires h.blocks[h.lists[l][n]].len - HEADER >= size > 0
    ensures var x, a := h.lists[l][n], Align(size);
      && Align(Get(h.mem, x)) == Get(h.mem, x) == h.blocks[x].len - HEADER && Get(h.mem, x + 4) == At(h, l, n + 1)
      && (Get(h.mem, x) > a + HEADER ==>
            var y: nat := x + HEADER + a;
            && Taken(h, l, n, size).mem ==
              SetNext(h.lists, h.mem[y := Get(h.mem, x) - (a + HEADER)][x := a][y + 4 := At(h, l, n + 1)], l, n, y)
            && Taken(h, l, n, size).head == SetHead(h.head, l, n, y))
      && (Get(h.mem, x) <= a + HEADER ==>
            && Taken(h, l, n, size).mem == SetNext(h.lists, h.mem, l, n, At(h, l, n + 1))
            && Taken(h, l, n, size).head == SetHead(h.head, l, n, At(h, l, n + 1)))
      && Taken(h, l, n, size).start == h.start && Taken(h, l, n, size).end == h.end
  {
    var x := h.lists[l][n];
    assert BlockOk(h, x) && LinkOk(h, l, n);
    AlignSame(Get(h.mem, x));
  }

  lemma SplitRoom(len: nat, size: nat)
    requires Mul4(len) && Mul4(size) && len - HEADER > size + HEADER
    ensures len >= HEADER + size + HEADER + 4
  {
  }

  // No block of list l is large enough.
  ghost predicate NothingFits(h: Heap, l: nat, size: nat)
    requires |h.lists| == LISTS && l < LISTS
  {
    forall m: nat {:trigger h.lists[l][m]} :: m < |h.lists[l]| && h.lists[l][m] in h.blocks ==>
      h.blocks[h.lists[l][m]].len - HEADER < size
  }

  // What carving leaves of a page on quick list l.
  function Tail(l: nat): nat
    requires l < QUICK_LISTS
  {
    PAGE_SIZE % (ClassSize(l) + HEADER)
  }

  lemma TailIs(l: nat, n: nat)
    requires l < QUICK_LISTS && n == PAGE_SIZE / (ClassSize(l) + HEADER)
    ensures n > 0 && PAGE_SIZE - n * (ClassSize(l) + HEADER) == Tail(l) < ClassSize(l) + HEADER
    ensures Mul4(ClassSize(l) + HEADER)
  {
  }

  // There is room for the i-th of n cells.
  lemma CellFits(i: nat, n: nat, len: nat)
    requires i < n && n * len <= PAGE_SIZE
    ensures i * len + len <= PAGE_SIZE
  {
    assert (i + 1) * len <= n * len;
  }

  // A refill from page x makes no block live, leaves none in flight, and loses
  // at most the tail of a carved page.
  ghost predicate RefillKinds(h0: Heap, x: nat, l: nat, h: Heap, b: nat)
    requires l < LISTS
  {
    b in h.blocks ==>
      && (h.blocks[b].kind == Held || h.blocks[b].kind == Live ==> b != x && Is(h0, b, h.blocks[b].kind))
      && (h.blocks[b].kind == Lost ==>
        (b != x && Is(h0, b, Lost)) || (l < QUICK_LISTS && b + Tail(l) == x + PAGE_SIZE && h.blocks[b].len == Tail(l)))
  }

  lemma StartCarving(h: Heap, x: nat, len: nat)
    requires Fits(h) && Is(h, x, Held) && h.blocks[x].len == PAGE_SIZE
    ensures Get(h.mem, x) + HEADER == PAGE_SIZE && Carving.Carved(Mark(h, x, Lost), x, len, [], x, Mark(h, x, Lost))
  {
    assert BlockOk(h, x);
    MarkKeepsFit(h, 0, x, Lost);
    var g := Mark(h, x, Lost);
    var none: seq<nat> := [];
    forall b: nat ensures Place(g, x, len, none, x, g, b) {}
    forall k: nat ensures CellAt(x, len, none, g, k) {}
  }

  // Quick list l begins with the cells of page x, in address order: blocks of
  // 8, 16, 32 or 64 bytes and a header. The rest of the lists is as it was.
  ghost predicate Cut(h0: Heap, h: Heap, x: nat, l: nat)
    requires l < QUICK_LISTS
  {
    var len := [16, 24, 40, 72][l];
    var n := 4096 / len;
    && |h0.lists| == LISTS == |h.lists| && h.lists == h0.lists[l := h.lists[l]]
    && |h.lists[l]| == n + |h0.lists[l]| && h.lists[l][n..] == h0.lists[l]
    && forall k: nat {:trigger h.lists[l][k]} :: k < n ==>
      h.lists[l][k] == x + k * len && x + k * len in h.blocks && h.blocks[x + k * len] == Block(len, Free(l))
  }

  lemma CellsAreCut(h0: Heap, x: nat, l: nat, cells: seq<nat>, rest: nat, g: Heap)
    requires l < QUICK_LISTS && |cells| == PAGE_SIZE / (ClassSize(l) + HEADER) > 0 && |h0.lists| == LISTS
    requires Carving.Carved(h0, x, ClassSize(l) + HEADER, cells, rest, g)
    ensures Cut(h0, PushAll(g, l, cells), x, l)
  {
    var len, r := ClassSize(l) + HEADER, PushAll(g, l, cells);
    assert len == [16, 24, 40, 72][l];
    forall k: nat {:trigger r.lists[l][k]} | k < |cells|
      ensures r.lists[l][k] == x + k * len && x + k * len in r.blocks && r.blocks[x + k * len] == Block(len, Free(l))
    {
      assert CellAt(x, len, cells, g, k);
      assert cells[k] in cells;
      assert Place(h0, x, len, cells, rest, g, cells[k]);
    }
  }

  lemma SameLists(h0: Heap, g: Heap, h: Heap, x: nat, l: nat)
    requires l < QUICK_LISTS && g.lists == h0.lists && Cut(g, h, x, l)
    ensures Cut(h0, h, x, l)
  {
  }

  // The first cell of a page just cut is the first block that fits.
  lemma FirstCellFits(h0: Heap, h: Heap, x: nat, l: nat, size: nat, n: nat)
    requires l < QUICK_LISTS && Cut(h0, h, x, l) && size <= ClassSize(l) && FirstFit(h, l, size, n)
    ensures h.lists[l][n] == x
  {
    assert 4096 / [16, 24, 40, 72][l] > 0;
    assert h.lists[l][0] == x + 0 * [16, 24, 40, 72][l];
  }

  lemma CarvedResult(h: Heap, x: nat, l: nat, cells: seq<nat>, rest: nat, g: Heap)
    requires Fits(h) && Is(h, x, Held) && l < QUICK_LISTS && |cells| == PAGE_SIZE / (ClassSize(l) + HEADER)
    requires Carving.Carved(Mark(h, x, Lost), x, ClassSize(l) + HEADER, cells, rest, g)
    requires forall a: nat {:trigger Is(h, a, Held)} :: Is(h, a, Held) ==> a == x
    ensures |cells| > 0 && ChainOk(g, cells)
    ensures var r := PushAll(g, l, cells);
      && Fits(r) && LiveKept(Mark(h, x, Lost), r) && SomethingFits(r, l, ClassSize(l)) && Cut(h, r, x, l)
      && forall b: nat {:trigger Is(r, b, Held)} {:trigger RefillKinds(h, x, l, r, b)} ::
        !Is(r, b, Held) && RefillKinds(h, x, l, r, b)
  {
    var len := ClassSize(l) + HEADER;
    TailIs(l, |cells|);
    CarvedChain(Mark(h, x, Lost), x, len, cells, rest, g);
    PushAllKeepsFit(g, l, cells);
    CellsAreCut(Mark(h, x, Lost), x, l, cells, rest, g);
    var r := PushAll(g, l, cells);
    LiveKeptChain(Mark(h, x, Lost), g, r);
    forall b: nat ensures !Is(r, b, Held) && RefillKinds(h, x, l, r, b) {
      if b in r.blocks {
        CarvedKinds(Mark(h, x, Lost), x, len, cells, rest, g, l, b);
        assert Is(h, b, Held) ==> b == x;
      }
    }
    assert r.lists[l][0] == x;
    assert Place(Mark(h, x, Lost), x, len, cells, rest, g, x);
    assert x in cells;
  }

  // A fresh block at the top of the heap has no upper neighbour: freeing it
  // loses nothing and leaves a block that is large enough.
  lemma FreshIsFreed(h: Heap, len: nat, size: nat)
    requires Fits(h) && Mul4(len) && len >= size + HEADER && size > 64
    requires forall a: nat {:trigger Is(h, a, Held)} :: !Is(h, a, Held)
    ensures Fits(Grow(h, len)) && Is(Grow(h, len), h.end, Held)
    ensures var r := Freed(Grow(h, len), h.end);
      && |r.lists| == LISTS && LiveKept(h, r) && SomethingFits(r, QUICK_LISTS, size)
      && forall b: nat {:trigger RefillKinds(h, h.end, QUICK_LISTS, r, b)} :: RefillKinds(h, h.end, QUICK_LISTS, r, b)
  {
    hide LinkOk, Outcome, Coalesced;
    GrowKeepsFit(h, len);
    var g, x := Grow(h, len), h.end;
    FreedKeeps(g, x);
    SameMark(g, x);
    var r := Freed(g, x);
    LiveKeptChain(h, g, r);
    TopIsFree(h);
    NoUpperAtTop(g, x);
    forall b: nat ensures RefillKinds(h, x, QUICK_LISTS, r, b) {
      LostExactly(g, x, b);
      assert (Is(r, b, Held) ==> b != x && Is(g, b, Held)) && (Is(r, b, Live) ==> b != x && Is(g, b, Live));
    }
    var f := FreedIsFree(g, x);
    assert BlockOk(r, f);
    var m: nat :| m < |r.lists[QUICK_LISTS]| && r.lists[QUICK_LISTS][m] == f;
  }

  lemma OneInFlight(h: Heap, len: nat)
    requires Fits(h) && Mul4(len) && len >= HEADER + 4
    requires forall a: nat {:trigger Is(h, a, Held)} :: !Is(h, a, Held)
    ensures Fits(Grow(h, len)) && Is(Grow(h, len), h.end, Held) && Grow(h, len).blocks[h.end].len == len
    ensures forall a: nat {:trigger Is(Grow(h, len), a, Held)} :: Is(Grow(h, len), a, Held) ==> a == h.end
  {
    GrowKeepsFit(h, len);
    forall a: nat {:trigger Is(Grow(h, len), a, Held)} | Is(Grow(h, len), a, Held)
      ensures a == h.end
    {
      assert !Is(h, a, Held);
    }
  }

  lemma SameMark(h: Heap, x: nat)
    requires Is(h, x, Held)
    ensures Mark(h, x, Held) == h
  {
    assert Mark(h, x, Held).blocks == h.blocks;
  }

  lemma NoUpperAtTop(h: Heap, x: nat)
    requires Fits(h) && Is(h, x, Held) && End(h, x) == h.end
    ensures !UpperFirst(h, x)
  {
    assert BlockOk(h, x);
    if UpperFirst(h, x) {
      UpperCanMerge(h, x, UpperIndex(h, x));
      OnList(h, 0, UpperIndex(h, x));
    }
  }

  lemma CarvedPage(h: Heap, x: nat, l: nat, r: Heap)
    requires Fits(h) && h.end == x && l < QUICK_LISTS && LiveKept(Mark(Grow(h, PAGE_SIZE), x, Lost), r)
    requires forall b: nat {:trigger RefillKinds(Grow(h, PAGE_SIZE), x, l, r, b)} ::
      RefillKinds(Grow(h, PAGE_SIZE), x, l, r, b)
    ensures LiveKept(h, r)
    ensures forall b: nat {:trigger RefillKinds(h, x, l, r, b)} :: RefillKinds(h, x, l, r, b)
  {
    GrowKeepsFit(h, PAGE_SIZE);
    var g := Grow(h, PAGE_SIZE);
    MarkKeepsFit(g, 0, x, Lost);
    TopIsFree(h);
    forall a: nat ensures LiveKeptAt(h, Mark(g, x, Lost), a) { assert LiveKeptAt(h, g, a); }
    LiveKeptChain(h, Mark(g, x, Lost), r);
    forall b: nat ensures RefillKinds(h, x, l, r, b) { assert RefillKinds(g, x, l, r, b); }
  }

  lemma FitsMore(h: Heap, l: nat, more: nat, size: nat)
    requires |h.lists| == LISTS && l < LISTS && SomethingFits(h, l, more) && size <= more
    ensures SomethingFits(h, l, size)
  {
  }

  // The n-th block of list l is the first that is large enough.
  ghost predicate FirstFit(h: Heap, l: nat, size: nat, n: nat)
    requires |h.lists| == LISTS && l < LISTS
  {
    && n < |h.lists[l]| && h.lists[l][n] in h.blocks && h.blocks[h.lists[l][n]].len - HEADER >= size
    && forall m: nat {:trigger h.lists[l][m]} :: m < n ==>
      h.lists[l][m] in h.blocks && h.blocks[h.lists[l][m]].len - HEADER < size
  }

  // The n-th block of list l is live. If the size rounded up to 4 leaves more
  // than a header, the rest takes its place on the list; else it is off the
  // list. Every other list and block is as it was.
  ghost predicate HandedOut(h0: Heap, h: Heap, l: nat, n: nat, size: nat)
    requires |h0.lists| == LISTS && l < LISTS && n < |h0.lists[l]| && h0.lists[l][n] in h0.blocks
  {
    var x, len, want := h0.lists[l][n], h0.blocks[h0.lists[l][n]].len, (size + 3) / 4 * 4;
    if len - 8 > want + 8 then
      var y: nat := x + 8 + want;
      && h.blocks == h0.blocks[x := Block(8 + want, Live)][y := Block(len - (8 + want), Free(l))]
      && h.lists == h0.lists[l := Replaced(h0.lists[l], n, y)]
    else
      && h.blocks == h0.blocks[x := Block(len, Live)]
      && h.lists == h0.lists[l := h0.lists[l][..n] + h0.lists[l][n + 1..]]
  }

  lemma TakenIsHandedOut(h: Heap, l: nat, n: nat, size: nat)
    requires Fits(h) && l < LISTS && n < |h.lists[l]| && h.lists[l][n] in h.blocks
    ensures HandedOut(h, Taken(h, l, n, size), l, n, size)
  {
    assert BlockOk(h, h.lists[l][n]) && LinkOk(h, l, n);
  }

  // The first block that fits was taken.
  ghost predicate TakenFirst(h0: Heap, h: Heap, l: nat, size: nat, ptr: nat)
    requires Fits(h0) && l < LISTS
  {
    exists n: nat {:trigger FirstFit(h0, l, size, n)} ::
      && FirstFit(h0, l, size, n) && ptr == h0.lists[l][n] + HEADER
      && h == Taken(h0, l, n, size) && HandedOut(h0, h, l, n, size)
  }

  // The first cell of a fresh page was taken.
  ghost predicate TakenFromPage(h0: Heap, h: Heap, l: nat, size: nat, ptr: nat)
    requires l < QUICK_LISTS
  {
    && ptr == h0.end + HEADER
    && exists g: Heap {:trigger Cut(h0, g, h0.end, l)} ::
      Fits(g) && Cut(h0, g, h0.end, l) && TakenFirst(g, h, l, size, ptr)
  }

  lemma FirstCellIsTaken(h0: Heap, g: Heap, l: nat, size: nat, n: nat)
    requires Fits(g) && l < QUICK_LISTS && Cut(h0, g, h0.end, l) && size <= ClassSize(l) && FirstFit(g, l, size, n)
    ensures TakenFromPage(h0, Taken(g, l, n, size), l, size, g.lists[l][n] + HEADER)
  {
    hide Fits, Cut, TakenFirst;
    FirstCellFits(h0, g, h0.end, l, size, n);
    FirstIsTaken(g, l, size, n);
  }

  lemma FirstIsTaken(h0: Heap, l: nat, size: nat, n: nat)
    requires Fits(h0) && l < LISTS && FirstFit(h0, l, size, n)
    ensures n < |h0.lists[l]| && h0.lists[l][n] in h0.blocks && h0.blocks[h0.lists[l][n]].len - HEADER >= size
    ensures TakenFirst(h0, Taken(h0, l, n, size), l, size, h0.lists[l][n] + HEADER)
    ensures SomethingFits(h0, l, size)
  {
    TakenIsHandedOut(h0, l, n, size);
  }

  // Some block of list l is large enough.
  ghost predicate SomethingFits(h: Heap, l: nat, size: nat)
    requires |h.lists| == LISTS && l < LISTS
  {
    !NothingFits(h, l, size)
  }

  // What kmalloc promises of the pointer: an aligned block that was not live,
  // large enough and at most a header too large, and the only new live block.
  // What is lost is a tail of the fresh page.
  ghost predicate Given(h0: Heap, h: Heap, ptr: nat, size: nat) {
    && ptr >= HEADER && Mul4(ptr)
    && !Is(h0, ptr - HEADER, Live) && Is(h, ptr - HEADER, Live)
    && size <= h.blocks[ptr - HEADER].len - HEADER <= Align(size) + HEADER
    && (forall b: nat {:trigger Is(h, b, Live)} :: Is(h, b, Live) ==> b == ptr - HEADER || Is(h0, b, Live))
    && (forall b: nat {:trigger Is(h, b, Lost)} :: Is(h, b, Lost) && !Is(h0, b, Lost) ==>
          && ListFor(size) < QUICK_LISTS && b + Tail(ListFor(size)) == h0.end + PAGE_SIZE
          && h.blocks[b].len == Tail(ListFor(size)))
  }

  // No refill, or one.
  ghost predicate Refilled(h0: Heap, l: nat, h: Heap)
    requires l < LISTS
  {
    h == h0 || forall b: nat {:trigger RefillKinds(h0, h0.end, l, h, b)} :: RefillKinds(h0, h0.end, l, h, b)
  }

  lemma NoRefill(h: Heap, l: nat)
    requires Fits(h) && l < LISTS
    ensures |h.lists| == LISTS && LiveKept(h, h) && Refilled(h, l, h)
  {
    forall a: nat ensures LiveKeptAt(h, h, a) {}
  }

  lemma RefillCounts(h0: Heap, l: nat, h: Heap)
    requires l < LISTS && forall b: nat {:trigger RefillKinds(h0, h0.end, l, h, b)} :: RefillKinds(h0, h0.end, l, h, b)
    ensures Refilled(h0, l, h)
  {
  }

  lemma TakenIsGiven(h0: Heap, h: Heap, l: nat, n: nat, size: nat)
    requires Fits(h0) && Fits(h) && LiveKept(h0, h) && l == ListFor(size) && Refilled(h0, l, h)
    requires forall a: nat {:trigger Is(h, a, Held)} :: !Is(h, a, Held)
    requires n < |h.lists[l]| && h.lists[l][n] in h.blocks && h.blocks[h.lists[l][n]].len - HEADER >= size > 0
    ensures var t := Taken(h, l, n, size);
      && Given(h0, t, h.lists[l][n] + HEADER, size) && LiveKept(h0, t) && Fits(t)
      && forall a: nat {:trigger Is(t, a, Held)} :: !Is(t, a, Held)
  {
    TakenKeeps(h, l, n, size);
    var t, x := Taken(h, l, n, size), h.lists[l][n];
    LiveKeptChain(h0, h, t);
    assert BlockOk(t, x);
    Mul4Sum(x, HEADER);
    assert LiveKeptAt(h0, h, x);
    forall b: nat {:trigger Is(t, b, Live)} {:trigger Is(t, b, Held)} {:trigger Is(t, b, Lost)}
      ensures !Is(t, b, Held) && (Is(t, b, Live) ==> b == x || Is(h0, b, Live))
      ensures Is(t, b, Lost) && !Is(h0, b, Lost) ==>
        l < QUICK_LISTS && b + Tail(l) == h0.end + PAGE_SIZE && t.blocks[b].len == Tail(l)
    {
      TakenKind(h, l, n, size, b);
      assert h != h0 ==> RefillKinds(h0, h0.end, l, h, b);
      assert !Is(h, b, Held);
    }
  }

  lemma TakenKind(h: Heap, l: nat, n: nat, size: nat, b: nat)
    requires Fits(h) && l < LISTS && n < |h.lists[l]| && h.lists[l][n] in h.blocks
    requires h.blocks[h.lists[l][n]].len - HEADER >= size > 0
    ensures var t := Taken(h, l, n, size); b in t.blocks && b != h.lists[l][n] && !t.blocks[b].kind.Free? ==>
      b in h.blocks && h.blocks[b] == t.blocks[b]
  {
    TakenKeeps(h, l, n, size);
  }

  // Bytes i to n are copied from src to dest, and nothing else is written.
  ghost predicate CopiedAt(m0: map<nat, nat>, m1: map<nat, nat>, src: nat, dest: nat, k: nat) {
    Get(m1, dest + k) == Get(m0, src + k)
  }

  ghost predicate SameAt(m0: map<nat, nat>, m1: map<nat, nat>, w: nat) { Get(m1, w) == Get(m0, w) }

  ghost predicate CopyMade(m0: map<nat, nat>, m1: map<nat, nat>, src: nat, dest: nat, i: nat, n: nat) {
    && (forall k: nat {:trigger CopiedAt(m0, m1, src, dest, k)} :: i <= k < n ==> CopiedAt(m0, m1, src, dest, k))
    && (forall w: nat {:trigger SameAt(m0, m1, w)} :: !(dest + i <= w < dest + n) ==> SameAt(m0, m1, w))
  }

  lemma CopyOne(m0: map<nat, nat>, m1: map<nat, nat>, src: nat, dest: nat, i: nat, n: nat)
    requires CopyMade(m0, m1, src, dest, i + 1, n) && i < n && (src + n <= dest || dest + n <= src)
    ensures CopyMade(m0, m1[dest + i := Get(m1, src + i)], src, dest, i, n)
  {
    var m2 := m1[dest + i := Get(m1, src + i)];
    assert SameAt(m0, m1, src + i);
    forall k: nat | i <= k < n
      ensures CopiedAt(m0, m2, src, dest, k) { assert k > i ==> CopiedAt(m0, m1, src, dest, k); }
    forall w: nat | !(dest + i <= w < dest + n) ensures SameAt(m0, m2, w) { assert SameAt(m0, m1, w); }
  }

  // The contents of the block at ptr moved to a new block, large enough, and
  // the old one is no longer live; all other live blocks are kept.
  ghost predicate Moved(h0: Heap, h: Heap, ptr: nat, to: nat, size: nat)
    requires ptr >= HEADER && ptr - HEADER in h0.blocks
  {
    && to >= HEADER && Mul4(to) && !Is(h0, to - HEADER, Live) && Is(h, to - HEADER, Live)
    && h.blocks[to - HEADER].len - HEADER >= size
    && (forall k: nat {:trigger CopiedAt(h0.mem, h.mem, ptr, to, k)} ::
          k < size && k < h0.blocks[ptr - HEADER].len - HEADER ==> CopiedAt(h0.mem, h.mem, ptr, to, k))
    && LiveKept(Mark(h0, ptr - HEADER, Held), h) && !Is(h, ptr - HEADER, Live)
  }

  // The old block was freed, after the new one had been given.
  ghost predicate FreedLast(h0: Heap, h: Heap, ptr: nat, to: nat, size: nat)
    requires ptr >= HEADER
  {
    exists g: Heap {:trigger Placed(g, h, ptr - HEADER)} ::
      Given(h0, g, to, size) && LiveKept(h0, g) && Is(g, ptr - HEADER, Live) && Placed(g, h, ptr - HEADER)
  }

  lemma GivenIsLive(h0: Heap, h: Heap, to: nat, size: nat)
    requires Given(h0, h, to, size)
    ensures to >= HEADER && !Is(h0, to - HEADER, Live) && Is(h, to - HEADER, Live)
    ensures h.blocks[to - HEADER].len - HEADER >= size
  {
  }

  // Copying into the new block leaves the live ones alone.
  lemma CopyKeepsLive(h0: Heap, h1: Heap, h2: Heap, ptr: nat, to: nat, size: nat, n: nat)
    requires Fits(h0) && Fits(h1) && LiveKept(h0, h1) && Given(h0, h1, to, size)
    requires h2 == h1.(mem := h2.mem) && n <= size && CopyMade(h1.mem, h2.mem, ptr, to, 0, n)
    ensures LiveKept(h0, h2) && Given(h0, h2, to, size)
  {
    forall a: nat ensures LiveKeptAt(h0, h2, a) {
      if Is(h0, a, Live) {
        assert LiveKeptAt(h0, h1, a);
        StillThere(h0, h1, a, to - HEADER);
        forall w: nat | a <= w < End(h0, a) ensures Get(h2.mem, w) == Get(h0.mem, w) {
          assert SameAt(h1.mem, h2.mem, w) && Get(h1.mem, w) == Get(h0.mem, w);
        }
      }
    }
    forall b: nat {:trigger Is(h2, b, Live)} {:trigger Is(h2, b, Lost)}
      ensures Is(h2, b, Live) == Is(h1, b, Live) && Is(h2, b, Lost) == Is(h1, b, Lost) {}
  }

  // A block live before and a newly given one do not overlap.
  lemma StillThere(h0: Heap, h1: Heap, x: nat, d: nat)
    requires Fits(h0) && Fits(h1) && LiveKept(h0, h1) && Is(h0, x, Live) && !Is(h0, d, Live) && Is(h1, d, Live)
    ensures Is(h1, x, Live) && h1.blocks[x] == h0.blocks[x] && Get(h1.mem, x) == h0.blocks[x].len - HEADER
    ensures End(h1, x) <= d || End(h1, d) <= x
  {
    assert LiveKeptAt(h0, h1, x) && BlockOk(h1, x);
    assert Ordered(h1, d, x) && Ordered(h1, x, d);
  }

  lemma MovedWorks(h0: Heap, h1: Heap, h2: Heap, h3: Heap, ptr: nat, to: nat, size: nat, n: nat)
    requires Fits(h0) && Fits(h1) && Fits(h2) && ptr >= HEADER && Is(h0, ptr - HEADER, Live)
    requires LiveKept(h0, h1) && Given(h0, h1, to, size)
    requires h2.blocks == h1.blocks
    requires n <= size && n <= h0.blocks[ptr - HEADER].len - HEADER
    requires n == size || n == h0.blocks[ptr - HEADER].len - HEADER
    requires CopyMade(h1.mem, h2.mem, ptr, to, 0, n)
    requires ptr - HEADER in h2.blocks && LiveKept(Mark(h2, ptr - HEADER, Held), h3) && !Is(h3, ptr - HEADER, Live)
    ensures Moved(h0, h3, ptr, to, size)
  {
    var x: nat, d: nat := ptr - HEADER, to - HEADER;
    StillThere(h0, h1, x, d);
    assert LiveKeptAt(h0, h1, x) && LiveKeptAt(Mark(h2, x, Held), h3, d);
    forall a: nat ensures LiveKeptAt(Mark(h0, x, Held), h3, a) {
      if Is(h0, a, Live) && a != x {
        assert LiveKeptAt(h0, h1, a) && LiveKeptAt(Mark(h2, x, Held), h3, a);
        StillThere(h0, h1, a, d);
        forall w: nat | a <= w < End(h0, a) ensures Get(h3.mem, w) == Get(h0.mem, w) {
          assert SameAt(h1.mem, h2.mem, w) && Get(h1.mem, w) == Get(h0.mem, w);
        }
      }
    }
    forall k: nat | k < size && k < h0.blocks[x].len - HEADER ensures CopiedAt(h0.mem, h3.mem, ptr, to, k) {
      assert CopiedAt(h1.mem, h2.mem, ptr, to, k);
      assert Get(h1.mem, ptr + k) == Get(h0.mem, ptr + k);
    }
  }

  // A place that holds a link: a list head or a block's next field.
  datatype Cell = Head(list: nat) | NextOf(block: nat)

  class Allocator {
    var mem: map<nat, nat>
    const freelist: array<nat>
    const start: nat
    var end: nat
    var usedMem: nat
    var mapped: seq<nat>  // the pages asked of mmu_alloc_at, oldest first

    ghost var blocks: map<nat, Block>
    ghost var lists: seq<seq<nat>>

    ghost function H(): Heap
      reads this, freelist
    {
      Heap(mem, freelist[..], start, end, blocks, lists)
    }

    ghost predicate Valid()
      reads this, freelist
    {
      Fits(H()) && freelist.Length == LISTS && forall a: nat {:trigger Is(H(), a, Held)} :: !Is(H(), a, Held)
    }

    // Every page from the one above the heap's start up to its end was asked
    // for, and asked for once.
    ghost predicate Mapped()
      reads this
    {
      && PageAlign(start) + PAGE_SIZE * |mapped| == PageAlign(end)
      && forall k: nat {:trigger mapped[k]} :: k < |mapped| ==> mapped[k] == PageAlign(start) + PAGE_SIZE * k
    }

    constructor (start: nat)
      requires start > 0 && Mul4(start)
      ensures Valid() && Mapped() && fresh(freelist) && this.start == start && end == start
      ensures blocks == map[] && lists == [[], [], [], [], []]
    {
      mem := map[];
      freelist := new nat[LISTS](_ => 0);
      this.start, end, usedMem, mapped := start, start, 0, [];
      blocks, lists := map[], [[], [], [], [], []];
      new;
      assert freelist[..] == [0, 0, 0, 0, 0];
    }

    // ---- Links ----

    // The cell names the n-th block of list l.
    ghost predicate Names(c: Cell, l: nat, n: nat)
      reads this
    {
      && |lists| == LISTS && l < LISTS && n <= |lists[l]|
      && c == if n == 0 then Head(l) else NextOf(lists[l][n - 1])
    }

    function Deref(c: Cell): nat
      requires c.Head? ==> c.list < freelist.Length
      reads this, freelist
    {
      match c
      case Head(l) => freelist[l]
      case NextOf(b) => Get(mem, b + 4)
    }

    lemma DerefNames(c: Cell, l: nat, n: nat, e: nat)
      requires FitsBut(H(), e) && freelist.Length == LISTS && Names(c, l, n)
      ensures Deref(c) == At(H(), l, n) && (Deref(c) == 0 <==> n == |lists[l]|)
      ensures n < |lists[l]| ==>
        && lists[l][n] in blocks && blocks[lists[l][n]].kind == Free(l)
        && Get(mem, lists[l][n]) == blocks[lists[l][n]].len - HEADER
    {
      assert H().head[l] == At(H(), l, 0);
      if n > 0 { assert LinkOk(H(), l, n - 1); }
      if n < |lists[l]| { assert LinkOk(H(), l, n) && BlockOk(H(), lists[l][n]); }
    }

    method SetCell(c: Cell, v: nat, ghost l: nat, ghost n: nat)
      requires freelist.Length == LISTS && Names(c, l, n)
      modifies this`mem, freelist
      ensures mem == SetNext(old(lists), old(mem), l, n, v) && freelist[..] == SetHead(old(freelist[..]), l, n, v)
    {
      match c {
        case Head(i) => freelist[i] := v;
        case NextOf(b) => mem := mem[b + 4 := v];
      }
    }

    // The first block of a list that is large enough.
    method Search(l: nat, size: nat) returns (iter: Cell, ghost n: nat)
      requires Valid() && l < LISTS
      ensures Names(iter, l, n) && Deref(iter) == At(H(), l, n)
      ensures if n < |lists[l]| then FirstFit(H(), l, size, n) else !SomethingFits(H(), l, size)
    {
      iter, n := Head(l), 0;
      DerefNames(iter, l, n, 0);
      while Deref(iter) != 0 && Get(mem, Deref(iter)) < size
        invariant Names(iter, l, n)
        invariant forall m {:trigger lists[l][m]} :: 0 <= m < n ==>
          lists[l][m] in blocks && blocks[lists[l][m]].len - HEADER < size
        decreases |lists[l]| - n
      {
        DerefNames(iter, l, n, 0);
        iter := NextOf(Deref(iter));
        n := n + 1;
      }
      DerefNames(iter, l, n, 0);
    }

    // ---- Coalescing ----

    // The stores of a lower merge.
    method StoreLower(iter: Cell, header: nat, ghost n: nat) returns (merged: nat)
      requires freelist.Length == LISTS && Names(iter, QUICK_LISTS, n)
      modifies this`mem, freelist
      ensures merged == old(Deref(iter))
      ensures mem == SetNext(lists, old(mem)[merged := Get(old(mem), merged) + (HEADER + Get(old(mem), header))],
                             QUICK_LISTS, n, Get(old(mem), merged + 4))
      ensures freelist[..] == SetHead(old(freelist[..]), QUICK_LISTS, n, Get(old(mem), merged + 4))
    {
      merged := Deref(iter);
      mem := mem[merged := Get(mem, merged) + (HEADER + Get(mem, header))];
      SetCell(iter, Get(mem, merged + 4), QUICK_LISTS, n);
    }

    // The block at *iter ends where the one in hand begins. If the latter is back
    // on the list already, the former is dropped.
    method MergeLower(iter: Cell, header: nat, ghost n: nat) returns (merged: nat)
      requires freelist.Length == LISTS && Names(iter, QUICK_LISTS, n)
      requires CanMergeLower(H(), n, header) || CanDrop(H(), n, header)
      modifies this`mem, this`blocks, this`lists, freelist
      ensures merged == old(lists[QUICK_LISTS][n])
      ensures H() ==
        if CanMergeLower(old(H()), n, header) then MergedLower(old(H()), n, header)
        else Dropped(old(H()), n, header)
      ensures |lists| == LISTS && |lists[QUICK_LISTS]| == old(|lists[QUICK_LISTS]|) - 1
    {
      hide BlockOk, LinkOk, Mul4, LiveKept;
      ghost var h := H();
      DerefNames(iter, QUICK_LISTS, n, if CanMergeLower(h, n, header) then 0 else header);
      if CanMergeLower(h, n, header) { MergeLowerWorks(h, n, header); } else { DropWorks(h, n, header); }
      merged := StoreLower(iter, header, n);
      ghost var g := if CanMergeLower(h, n, header) then MergedLower(h, n, header) else Dropped(h, n, header);
      blocks, lists := g.blocks, g.lists;
      assert H() == g;
    }

    // The stores of an upper merge.
    method StoreUpper(iter: Cell, header: nat, ghost n: nat)
      requires freelist.Length == LISTS && Names(iter, QUICK_LISTS, n) && Deref(iter) + 4 != header
      modifies this`mem, freelist
      ensures var hi := old(Deref(iter));
        var size := Get(old(mem), header) + (HEADER + Get(old(mem), hi));
        mem == SetNext(lists, old(mem)[header := size][header + 4 := Get(old(mem), hi + 4)], QUICK_LISTS, n, header)
      ensures freelist[..] == SetHead(old(freelist[..]), QUICK_LISTS, n, header)
    {
      var hi := Deref(iter);
      mem := mem[header := Get(mem, header) + (HEADER + Get(mem, hi))];
      mem := mem[header + 4 := Get(mem, hi + 4)];
      SetCell(iter, header, QUICK_LISTS, n);
    }

    // The block in flight ends where the block at *iter begins, and takes its
    // place on the list.
    method MergeUpper(iter: Cell, header: nat, ghost n: nat)
      requires freelist.Length == LISTS && Names(iter, QUICK_LISTS, n) && CanMergeUpper(H(), n, header)
      modifies this`mem, this`blocks, this`lists, freelist
      ensures H() == MergedUpper(old(H()), n, header)
      ensures |lists| == LISTS && lists[QUICK_LISTS] == Replaced(old(lists[QUICK_LISTS]), n, header)
    {
      hide FitsBut, BlockOk, LinkOk, Mul4;
      ghost var h := H();
      DerefNames(iter, QUICK_LISTS, n, 0);
      MergeUpperMemory(h, n, header);
      MergedUpperRow(h, n, header);
      StoreUpper(iter, header, n);
      blocks, lists := MergedUpper(h, n, header).blocks, MergedUpper(h, n, header).lists;
      assert H() == MergedUpper(h, n, header);
    }

    // ---- Freeing ----

    // The list a block of `size` bytes goes to.
    method ChooseList(size: nat) returns (list: nat)
      ensures list == ListFor(size)
    {
      list := 0;
      while list < QUICK_LISTS && size > ClassSize(list)
        invariant list <= QUICK_LISTS
        invariant forall i: nat {:trigger ClassSize(i)} :: i < list ==> size > ClassSize(i)
      {
        list := list + 1;
      }
      assert list > 0 ==> size > ClassSize(list - 1);
    }

    // Valid, but for block x in flight.
    ghost predicate ValidBut(x: int)
      reads this, freelist
    {
      Fits(H()) && freelist.Length == LISTS && forall a: nat {:trigger Is(H(), a, Held)} :: Is(H(), a, Held) ==> a == x
    }

    // The scan's test for an upper neighbour, and the step to the next block.
    method MeetNext(iter: Cell, merged: nat, ghost h0: Heap, ghost header: nat, ghost s: Stage, ghost n: nat)
      returns (upper: bool, ghost next: Stage)
      requires freelist.Length == LISTS && Names(iter, QUICK_LISTS, n) && n < |lists[QUICK_LISTS]|
      requires Fits(h0) && Is(h0, header, Held) && Reached(h0, header, s, H(), merged, n) && !LowerAt(H(), merged, n)
      modifies this`mem, this`blocks, this`lists, freelist
      ensures Reached(h0, header, next, H(), merged, n + 1)
      ensures |lists| == LISTS && |lists[QUICK_LISTS]| == old(|lists[QUICK_LISTS]|)
      ensures Names(NextOf(Deref(iter)), QUICK_LISTS, n + 1)
      ensures next == if upper then (if s == Scanning then UpperMerged else Settled) else s
      ensures upper ==> s == Scanning || s == LowerMerged
    {
      hide MergedUpper, Coalesced, FitsBut, BlockOk, LinkOk, Mul4, Reached;
      ReachedFits(h0, header, s, H(), merged, n);
      DerefNames(iter, QUICK_LISTS, n, Exception(s, merged));
      upper, next := false, s;
      if merged + HEADER + Get(mem, merged) == Deref(iter) {
        MeetUpper(h0, header, s, H(), merged, n);
        MergeUpper(iter, merged, n);
        upper, next := true, if s == Scanning then UpperMerged else Settled;
      } else {
        PassBlock(h0, header, s, H(), merged, n);
      }
      ReachedFits(h0, header, next, H(), merged, n + 1);
      DerefNames(iter, QUICK_LISTS, n, Exception(next, merged));
    }

    // The scan of the general list: after a lower merge it starts again.
    method Scan(header: nat) returns (merged: nat, hasmerged: bool, ghost s: Stage)
      requires Fits(H()) && |lists| == LISTS && freelist.Length == LISTS && Is(H(), header, Held)
      modifies this`mem, this`blocks, this`lists, freelist
      ensures |lists| == LISTS && Reached(old(H()), header, s, H(), merged, |lists[QUICK_LISTS]|)
      ensures hasmerged <==> s == UpperMerged || s == Settled
    {
      hide MergedLower, MergedUpper, Dropped, Coalesced, FitsBut, BlockOk, LinkOk, Mul4, LowerIndex, UpperIndex;
      hide UpperAt;
      ghost var h0 := H();
      merged, hasmerged, s := header, false, Scanning;
      var iter := Head(QUICK_LISTS);
      ghost var n: nat := 0;
      DerefNames(iter, QUICK_LISTS, n, 0);
      while Deref(iter) != 0
        invariant freelist.Length == LISTS && Names(iter, QUICK_LISTS, n)
        invariant Reached(h0, header, s, H(), merged, n)
        invariant hasmerged <==> s == UpperMerged || s == Settled
        decreases |lists[QUICK_LISTS]|, |lists[QUICK_LISTS]| - n
      {
        DerefNames(iter, QUICK_LISTS, n, Exception(s, merged));
        if Deref(iter) + Get(mem, Deref(iter)) + HEADER == merged {
          MeetLower(h0, header, s, H(), merged, n);
          merged := MergeLower(iter, merged, n);
          iter, n, s := Head(QUICK_LISTS), 0, if s == Scanning then LowerMerged else Settled;
        } else {
          var upper;
          upper, s := MeetNext(iter, merged, h0, header, s, n);
          hasmerged := hasmerged || upper;
          iter, n := NextOf(Deref(iter)), n + 1;
        }
        DerefNames(iter, QUICK_LISTS, n, Exception(s, merged));
      }
      DerefNames(iter, QUICK_LISTS, n, Exception(s, merged));
    }

    // A block in flight is coalesced, and put on the general list unless it took
    // its upper neighbour's place there.
    method FreeLarge(block: nat)
      requires Fits(H()) && |lists| == LISTS && freelist.Length == LISTS && Is(H(), block, Held)
      modifies this`mem, this`blocks, this`lists, freelist
      ensures H() == Coalesced(old(H()), block)
    {
      hide FitsBut, BlockOk, LinkOk, Mul4, Coalesced, LowerIndex, UpperIndex, Reached;
      ghost var h := H();
      var header, hasmerged;
      ghost var s;
      header, hasmerged, s := Scan(block);
      EndOfScan(h, block, s, H(), header);
      if !hasmerged {
        Push(header, QUICK_LISTS);
      }
    }

    // Free a block: small ones go to the front of their quick list, the others
    // are coalesced.
    method Kfree(ptr: nat)
      requires ValidBut(ptr - HEADER)
      requires ptr == 0 || (ptr >= HEADER && (Is(H(), ptr - HEADER, Live) || Is(H(), ptr - HEADER, Held)))
      modifies this`mem, this`blocks, this`lists, freelist
      ensures Valid()
      ensures ptr == 0 ==> H() == old(H())
      ensures ptr != 0 ==> H() == Freed(old(H()), ptr - HEADER) && LiveKept(Mark(old(H()), ptr - HEADER, Held), H())
      ensures ptr != 0 ==> Placed(old(H()), H(), ptr - HEADER)
    {
      if ptr == 0 {
        return;
      }
      hide FitsBut, BlockOk, LinkOk, Mul4, Coalesced, LowerIndex, UpperIndex, LiveKept, Reached, LiveKeptAt, Placed;
      var header := ptr - HEADER;
      ghost var h := Mark(H(), header, Held);
      FreedKeeps(H(), header);
      FreedIsPlaced(H(), header);
      blocks := h.blocks;
      assert H() == h;
      var list := ChooseList(Get(mem, header));
      if list < QUICK_LISTS {
        Push(header, list);
        return;
      }
      FreeLarge(header);
    }

    method Push(header: nat, list: nat)
      requires Fits(H()) && freelist.Length == LISTS && list < LISTS && Is(H(), header, Held)
      modifies this`mem, this`blocks, this`lists, freelist
      ensures H() == Insert(old(H()), list, 0, header)
    {
      ghost var h := H();
      assert h.head[list] == At(h, list, 0);
      hide BlockOk, LinkOk;
      mem := mem[header + 4 := freelist[list]];
      freelist[list] := header;
      blocks, lists := Insert(h, list, 0, header).blocks, Insert(h, list, 0, header).lists;
      assert H() == Insert(h, list, 0, header);
    }

    // ---- Growing ----

    // ksbrk: pages are asked for only when the heap grows, but its end moves
    // either way.
    method Ksbrk(increment: int) returns (oldEnd: nat)
      requires 0 <= end + increment
      requires increment > 0 ==> Mapped() && end + increment + PAGE_SIZE <= WORD
      modifies this`end, this`mapped
      ensures oldEnd == old(end) && end == old(end) + increment
      ensures increment > 0 ==> Mapped()
      ensures increment <= 0 ==> mapped == old(mapped)
    {
      if increment > 0 {
        var tmp, next := PageAlign(end), PageAlign(end + increment);
        PageAlignGrows(end, increment);
        var pages := (next - tmp) / PAGE_SIZE;
        var i := 0;
        while i < pages
          invariant i <= pages && next == tmp + PAGE_SIZE * pages && end == old(end)
          invariant PageAlign(start) + PAGE_SIZE * |mapped| == tmp + PAGE_SIZE * i
          invariant forall k: nat {:trigger mapped[k]} :: k < |mapped| ==> mapped[k] == PageAlign(start) + PAGE_SIZE * k
        {
          mapped := mapped + [tmp + i * PAGE_SIZE];
          i := i + 1;
        }
      }
      oldEnd, end := end, end + increment;
    }

    // A fresh block of whole pages, in flight at the top of the heap.
    method Getmore(size: nat) returns (header: nat)
      requires Valid() && Mapped() && Room(size)
      modifies this`mem, this`end, this`mapped, this`usedMem, this`blocks
      ensures Mapped() && header == old(end) && usedMem == old(usedMem) + PageAlign(size + HEADER)
      ensures H() == Grow(old(H()), PageAlign(size + HEADER))
    {
      PageAlignUp(size + HEADER);
      var rounded := PageAlign(size + HEADER);
      usedMem := usedMem + rounded;
      header := Ksbrk(Signed(rounded));
      mem := mem[header := rounded - HEADER];
      blocks := blocks[header := Block(rounded, Held)];
    }

    // The request, rounded to pages, stays in the address space.
    ghost predicate Room(size: nat)
      reads this`end
    {
      Signed(PageAlign(size + HEADER)) > 0 && end + PageAlign(size + HEADER) + PAGE_SIZE <= WORD
    }

    // ---- Allocating ----

    // Hand out the block at *iter, or its lower part.
    method Take(iter: Cell, size: nat, ghost l: nat, ghost n: nat) returns (ptr: nat)
      requires Valid() && Names(iter, l, n) && n < |lists[l]| && lists[l][n] in blocks
      requires blocks[lists[l][n]].len - HEADER >= size > 0
      modifies this`mem, this`blocks, this`lists, freelist
      ensures ptr == old(lists[l][n]) + HEADER && H() == Taken(old(H()), l, n, size)
    {
      hide FitsBut, BlockOk, LinkOk, Align, Mul4, Taken, Split, Unlink, SetNext, SetHead;
      ghost var h := H();
      DerefNames(iter, l, n, 0);
      TakenMemory(h, l, n, size);
      var header := Deref(iter);
      if Align(Get(mem, header)) > Align(size) + HEADER {
        var newheader := header + HEADER + Align(size);
        mem := mem[newheader := Align(Get(mem, header)) - (Align(size) + HEADER)];
        mem := mem[header := Align(size)];
        mem := mem[newheader + 4 := Get(mem, header + 4)];
        SetCell(iter, newheader, l, n);
      } else {
        SetCell(iter, Get(mem, header + 4), l, n);
      }
      blocks, lists := Taken(h, l, n, size).blocks, Taken(h, l, n, size).lists;
      assert H() == Taken(h, l, n, size);
      ptr := header + HEADER;
    }

    // Cut one cell off the rest of the page.
    method CutCell(block: nat, list: nat, ghost h0: Heap, ghost header: nat, ghost cells: seq<nat>) returns (next: nat)
      requires list < QUICK_LISTS && freelist.Length == LISTS
      requires Carving.Carved(h0, header, ClassSize(list) + HEADER, cells, block, H())
      requires block + ClassSize(list) + HEADER <= header + PAGE_SIZE
      modifies this`mem, this`blocks
      ensures next == block + ClassSize(list) + HEADER
      ensures Carving.Carved(h0, header, ClassSize(list) + HEADER, cells + [block], next, H())
    {
      ghost var len := ClassSize(list) + HEADER;
      TailIs(list, PAGE_SIZE / (ClassSize(list) + HEADER));
      CarveOne(h0, header, len, cells, block, H());
      ghost var g := Chop(H(), block, len);
      mem := mem[block := ClassSize(list)];
      mem := mem[block + 4 := block + ClassSize(list) + HEADER];
      blocks := g.blocks;
      assert H() == g;
      next := Get(mem, block + 4);
    }

    // Put the chain of cells in front of the quick list.
    method LinkCells(header: nat, last: nat, list: nat, ghost h0: Heap, ghost cells: seq<nat>, ghost rest: nat)
      requires list < QUICK_LISTS && freelist.Length == LISTS && |cells| > 0 && last == cells[|cells| - 1]
      requires Carving.Carved(h0, header, ClassSize(list) + HEADER, cells, rest, H())
      modifies this`mem, this`blocks, this`lists, freelist
      ensures ChainOk(old(H()), cells) && cells[0] == header && H() == PushAll(old(H()), list, cells)
    {
      ghost var h := H();
      CarvedChain(h0, header, ClassSize(list) + HEADER, cells, rest, h);
      mem := mem[last + 4 := freelist[list]];
      freelist[list] := header;
      blocks, lists := PushAll(h, list, cells).blocks, PushAll(h, list, cells).lists;
      assert H() == PushAll(h, list, cells);
    }

    // Cut the page at `header` into the blocks of a quick list.
    method Carve(header: nat, list: nat)
      requires ValidBut(header) && Is(H(), header, Held) && blocks[header].len == PAGE_SIZE && list < QUICK_LISTS
      modifies this`mem, this`blocks, this`lists, freelist
      ensures Valid() && LiveKept(Mark(old(H()), header, Lost), H())
      ensures |lists| == LISTS && SomethingFits(H(), list, ClassSize(list)) && Cut(old(H()), H(), header, list)
      ensures forall b: nat {:trigger RefillKinds(old(H()), header, list, H(), b)} ::
        RefillKinds(old(H()), header, list, H(), b)
    {
      hide LinkOk, Mul4, LiveKept, Place, Cut;
      ghost var h0 := Mark(H(), header, Lost);
      StartCarving(H(), header, ClassSize(list) + HEADER);
      blocks := h0.blocks;
      assert H() == h0;
      ghost var len := ClassSize(list) + HEADER;
      var count := (Get(mem, header) + HEADER) / (ClassSize(list) + HEADER);
      TailIs(list, count);
      var i, block, last := 0, header, header;
      ghost var cells: seq<nat> := [];
      while i < count
        invariant i <= count && |cells| == i && freelist.Length == LISTS
        invariant Carving.Carved(h0, header, len, cells, block, H())
        invariant i > 0 ==> last == cells[i - 1]
      {
        CellFits(i, count, len);
        last := block;
        block := CutCell(block, list, h0, header, cells);
        cells := cells + [last];
        i := i + 1;
      }
      ghost var h := H();
      LinkCells(header, last, list, h0, cells, block);
      CarvedResult(old(H()), header, list, cells, block, h);
    }

    // Nothing fits: a fresh page is carved, or a fresh block freed.
    method Refill(list: nat, size: nat)
      requires Valid() && Mapped() && Room(size) && size > 0 && list == ListFor(size)
      modifies this, freelist
      ensures Valid() && Mapped() && end == old(end) + PageAlign(size + HEADER)
      ensures usedMem - old(usedMem) == end - old(end)
      ensures |lists| == LISTS && SomethingFits(H(), list, size) && LiveKept(old(H()), H())
      ensures forall b: nat {:trigger RefillKinds(old(H()), old(end), list, H(), b)} ::
        RefillKinds(old(H()), old(end), list, H(), b)
      ensures if list < QUICK_LISTS then Cut(old(H()), H(), old(end), list) else H() == Refreshed(old(H()), size)
    {
      hide FitsBut, LiveKept, RefillKinds, NothingFits, Freed, Placed;
      PageAlignUp(size + HEADER);
      ghost var h := H();
      var header := Getmore(size);
      OneInFlight(h, PageAlign(size + HEADER));
      if list < QUICK_LISTS {
        ghost var g := H();
        Carve(header, list);
        SameLists(h, g, H(), header, list);
        CarvedPage(h, header, list, H());
        FitsMore(H(), list, ClassSize(list), size);
      } else {
        FreshIsFreed(h, PageAlign(size + HEADER), size);
        Kfree(header + HEADER);
      }
    }

    // kmalloc.
    method Kmalloc(size: nat) returns (ptr: nat)
      requires Valid() && Mapped() && (size > 0 && !SomethingFits(H(), ListFor(size), size) ==> Room(size))
      modifies this, freelist
      ensures Valid() && Mapped() && LiveKept(old(H()), H())
      ensures size == 0 ==> ptr == 0 && H() == old(H())
      ensures size > 0 ==> Given(old(H()), H(), ptr, size)
      ensures size > 0 && SomethingFits(old(H()), ListFor(size), size) ==>
        TakenFirst(old(H()), H(), ListFor(size), size, ptr)
      ensures size > 64 && !SomethingFits(old(H()), QUICK_LISTS, size) ==>
        TakenFirst(Refreshed(old(H()), size), H(), QUICK_LISTS, size, ptr)
      ensures 0 < size <= 64 && !SomethingFits(old(H()), ListFor(size), size) ==>
        TakenFromPage(old(H()), H(), ListFor(size), size, ptr)
      ensures usedMem - old(usedMem) == end - old(end)
      ensures size > 0 ==>
        end == old(end) + if SomethingFits(old(H()), ListFor(size), size) then 0 else PageAlign(size + HEADER)
    {
      hide FitsBut, LiveKept, Refreshed, Given, Taken, TakenFirst, FirstFit, NothingFits, Refilled, Mul4, Cut;
      hide TakenFromPage;
      NoRefill(H(), ListFor(size));
      var list := ChooseList(size);
      if size == 0 {
        return 0;
      }
      ghost var h0, grown := H(), false;
      while true
        invariant Valid() && Mapped() && |lists| == LISTS
        invariant !grown ==> H() == h0
        invariant usedMem - old(usedMem) == end - old(end)
        invariant grown ==>
          end == h0.end + PageAlign(size + HEADER) && SomethingFits(H(), list, size) && !SomethingFits(h0, list, size)
        invariant LiveKept(h0, H()) && Refilled(h0, list, H())
        invariant grown ==> if list < QUICK_LISTS then Cut(h0, H(), h0.end, list) else H() == Refreshed(h0, size)
        invariant !grown && !SomethingFits(h0, list, size) ==> Room(size)
        decreases !grown
      {
        var iter, n := Search(list, size);
        DerefNames(iter, list, n, 0);
        if Deref(iter) != 0 {
          FirstIsTaken(H(), list, size, n);
          TakenIsGiven(h0, H(), list, n, size);
          if grown && list < QUICK_LISTS { FirstCellIsTaken(h0, H(), list, size, n); }
          ptr := Take(iter, size, list, n);
          return;
        }
        Refill(list, size);
        RefillCounts(h0, list, H());
        grown := true;
      }
    }

    // ---- Reallocating ----

    // Copy n bytes, highest first, into the payload of block d.
    method Memcpy(dest: nat, src: nat, n: nat, ghost d: nat)
      requires Valid() && Is(H(), d, Live) && d + HEADER <= dest && dest + n <= End(H(), d)
      requires src + n <= dest || dest + n <= src
      modifies this`mem
      ensures Valid() && CopyMade(old(mem), mem, src, dest, 0, n)
    {
      hide FitsBut;
      var i: nat := n;
      while i > 0
        invariant i <= n && Valid() && Is(H(), d, Live) && CopyMade(old(mem), mem, src, dest, i, n)
      {
        i := i - 1;
        ghost var h := H();
        PayloadKeepsFit(h, d, dest + i, Get(mem, src + i));
        CopyOne(old(mem), mem, src, dest, i, n);
        mem := mem[dest + i := Get(mem, src + i)];
        assert H() == h.(mem := mem);
        assert forall a: nat {:trigger Is(H(), a, Held)} :: Is(H(), a, Held) ==> Is(h, a, Held);
      }
    }

    // krealloc of a live block to a size that is not zero.
    method Move(ptr: nat, size: nat) returns (to: nat)
      requires Valid() && Mapped() && size > 0 && (!SomethingFits(H(), ListFor(size), size) ==> Room(size))
      requires ptr >= HEADER && Is(H(), ptr - HEADER, Live)
      modifies this, freelist
      ensures Valid() && Mapped() && Moved(old(H()), H(), ptr, to, size) && usedMem - old(usedMem) == end - old(end)
      ensures FreedLast(old(H()), H(), ptr, to, size)
    {
      hide FitsBut, LiveKept, LiveKeptAt, CopyMade, Moved, Freed, Placed, NothingFits, TakenFirst, TakenFromPage;
      hide Refreshed, Given;
      ghost var h0, x := H(), ptr - HEADER;
      to := Kmalloc(size);
      ghost var h1 := H();
      GivenIsLive(h0, h1, to, size);
      StillThere(h0, h1, x, to - HEADER);
      var n := if Get(mem, ptr - HEADER) > size then size else Get(mem, ptr - HEADER);
      Memcpy(to, ptr, n, to - HEADER);
      ghost var h2 := H();
      CopyKeepsLive(h0, h1, h2, ptr, to, size, n);
      FreedKeeps(h2, x);
      Kfree(ptr);
      MovedWorks(h0, h1, h2, H(), ptr, to, size, n);
    }

    // krealloc.
    method Krealloc(ptr: nat, size: nat) returns (to: nat)
      requires Valid() && Mapped() && (size > 0 && !SomethingFits(H(), ListFor(size), size) ==> Room(size))
      requires ptr == 0 || (ptr >= HEADER && Is(H(), ptr - HEADER, Live))
      modifies this, freelist
      ensures Valid() && Mapped() && usedMem - old(usedMem) == end - old(end)
      ensures ptr == 0 && size > 0 ==> Given(old(H()), H(), to, size) && LiveKept(old(H()), H())
      ensures ptr == 0 && size == 0 ==> to == 0 && H() == old(H())
      ensures ptr != 0 && size == 0 ==> to == 0 && H() == Freed(old(H()), ptr - HEADER)
      ensures ptr != 0 && size == 0 ==> Placed(old(H()), H(), ptr - HEADER)
      ensures ptr != 0 && size > 0 ==> Moved(old(H()), H(), ptr, to, size) && FreedLast(old(H()), H(), ptr, to, size)
    {
      if ptr == 0 {
        to := Kmalloc(size);
      } else if size == 0 {
        Kfree(ptr);
        to := 0;
      } else {
        to := Move(ptr, size);
      }
    }
  }

  lemma SizeInHeader(h: Heap, x: nat)
    requires Fits(h) && x in h.blocks && h.blocks[x].kind != Lost
    ensures Get(h.mem, x) == h.blocks[x].len - HEADER
  {
    assert BlockOk(h, x);
  }

  // Block x is in front of the list of its class, and takes whatever request of
  // that class it covers.
  lemma FrontFits(h: Heap, x: nat, l: nat, size: nat)
    requires Fits(h) && l < LISTS && |h.lists[l]| > 0 && h.lists[l][0] == x && Is(h, x, Free(l))
    requires h.blocks[x].len - HEADER >= size
    ensures SomethingFits(h, l, size)
    ensures forall g: Heap, ptr: nat :: TakenFirst(h, g, l, size, ptr) ==> ptr == x + HEADER
  {
  }

  // What kfree of a small block gives back, the next kmalloc of its class hands
  // out again, and the heap does not grow.
  method FreeThenAllocate(heap: Allocator, ptr: nat, size: nat) returns (again: nat)
    requires heap.Valid() && heap.Mapped() && ptr >= HEADER && Is(heap.H(), ptr - HEADER, Live)
    requires 0 < size <= Get(heap.mem, ptr - HEADER) <= 64
    requires (size <= 8 <==> Get(heap.mem, ptr - HEADER) <= 8) && (size <= 16 <==> Get(heap.mem, ptr - HEADER) <= 16)
    requires size <= 32 <==> Get(heap.mem, ptr - HEADER) <= 32
    modifies heap, heap.freelist
    ensures heap.Valid() && again == ptr && heap.end == old(heap.end) && Is(heap.H(), ptr - HEADER, Live)
  {
    hide FitsBut, LiveKept, Merged, Freed, TakenFirst, NothingFits, Mul4;
    ghost var x := ptr - HEADER;
    SizeInHeader(heap.H(), x);
    heap.Kfree(ptr);
    ghost var h := heap.H();
    FrontFits(h, x, ListFor(size), size);
    again := heap.Kmalloc(size);
  }
}
