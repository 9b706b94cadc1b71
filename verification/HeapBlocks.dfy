// The kernel heap cut into blocks. Every byte of the grown heap belongs to one
// block; the predicates say how blocks, headers and free lists fit together,
// and each change the allocator makes is shown to keep that fit.
module HeapBlocks {

  const QUICK_LISTS := 4
  const LISTS := 5
  const HEADER := 8

  // Live: handed out. Held: in flight inside the allocator. Free(l): on list l.
  // Lost: on no list and in nobody's hands.
  datatype Kind = Live | Held | Free(list: nat) | Lost

  predicate Mul4(x: int) { x % 4 == 0 }

  lemma Mul4Of(x: int, a: int)
    requires x == 4 * a
    ensures Mul4(x)
  {
  }

  lemma Mul4Sum(x: int, y: int)
    requires Mul4(x) && Mul4(y)
    ensures Mul4(x + y) && Mul4(x - y)
  {
    var a, b := x / 4, y / 4;
    assert x == 4 * a && y == 4 * b;
    Mul4Of(x + y, a + b);
    Mul4Of(x - y, a - b);
  }

  // A block's length counts its header.
  datatype Block = Block(len: nat, kind: Kind)

  // Word memory, the list heads and the heap's bounds are real; blocks and
  // lists are what they mean.
  datatype Heap = Heap(
    mem: map<nat, nat>,
    head: seq<nat>,
    start: nat,
    end: nat,
    blocks: map<nat, Block>,
    lists: seq<seq<nat>>)

  function Get(mem: map<nat, nat>, a: nat): nat {
    if a in mem then mem[a] else 0
  }

  // The n-th block of list l, NULL after the last.
  function At(h: Heap, l: nat, n: nat): nat
    requires |h.lists| == LISTS && l < LISTS
  {
    if n < |h.lists[l]| then h.lists[l][n] else 0
  }

  ghost predicate Is(h: Heap, a: nat, k: Kind) {
    a in h.blocks && h.blocks[a].kind == k
  }

  ghost function End(h: Heap, a: nat): nat
    requires a in h.blocks
  {
    a + h.blocks[a].len
  }

  ghost predicate BlockOk(h: Heap, a: nat)
    requires a in h.blocks && |h.lists| == LISTS
  {
    var b := h.blocks[a];
    && h.start <= a && Mul4(a) && Mul4(b.len) && 0 < b.len && End(h, a) <= h.end
    && (End(h, a) == h.end || End(h, a) in h.blocks)
    && (b.kind != Lost ==> b.len >= HEADER + 4 && Get(h.mem, a) == b.len - HEADER)
    && (b.kind.Free? ==> b.kind.list < LISTS && a in h.lists[b.kind.list])
  }

  ghost predicate Ordered(h: Heap, a: nat, b: nat) {
    a in h.blocks && b in h.blocks && a < b ==> End(h, a) <= b
  }

  // The n-th block of list l is free and links to the next.
  ghost predicate LinkOk(h: Heap, l: nat, n: nat)
    requires |h.lists| == LISTS
  {
    l < LISTS && n < |h.lists[l]| ==>
      && Is(h, h.lists[l][n], Free(l))
      && Get(h.mem, h.lists[l][n] + 4) == At(h, l, n + 1)
  }

  ghost predicate DistinctOk(h: Heap, l: nat, m: nat, n: nat)
    requires |h.lists| == LISTS
  {
    l < LISTS && m < n < |h.lists[l]| ==> h.lists[l][m] != h.lists[l][n]
  }

  // Blocks a and b of the general list do not touch.
  ghost predicate Apart(h: Heap, a: nat, b: nat) {
    Is(h, a, Free(QUICK_LISTS)) && Is(h, b, Free(QUICK_LISTS)) ==> End(h, a) != b
  }

  // The fit of the whole heap; block `e` may still touch a lower free neighbour.
  ghost predicate FitsBut(h: Heap, e: nat) {
    && |h.head| == LISTS && |h.lists| == LISTS
    && 0 < h.start <= h.end && Mul4(h.start) && Mul4(h.end)
    && (h.start == h.end || h.start in h.blocks)
    && (forall a: nat {:trigger BlockOk(h, a)} :: a in h.blocks ==> BlockOk(h, a))
    && (forall a: nat, b: nat {:trigger Ordered(h, a, b)} :: Ordered(h, a, b))
    && (forall l: nat {:trigger h.head[l]} :: l < LISTS ==> h.head[l] == At(h, l, 0))
    && (forall l: nat, n: nat {:trigger LinkOk(h, l, n)} :: LinkOk(h, l, n))
    && (forall l: nat, m: nat, n: nat {:trigger DistinctOk(h, l, m, n)} :: DistinctOk(h, l, m, n))
    && (forall a: nat, b: nat {:trigger Apart(h, a, b)} :: b != e ==> Apart(h, a, b))
  }

  ghost predicate Fits(h: Heap) { FitsBut(h, 0) }

  // ---- Partition ----

  // Word address w lies in block a.
  ghost predicate In(h: Heap, w: nat, a: nat) {
    a in h.blocks && a <= w < End(h, a)
  }

  lemma InOneBlock(h: Heap, e: nat, w: nat, a: nat, b: nat)
    requires FitsBut(h, e) && In(h, w, a) && In(h, w, b)
    ensures a == b
  {
    assert Ordered(h, a, b) && Ordered(h, b, a);
  }

  // Walking the blocks from a finds the one that holds w.
  lemma {:induction false} FindBlock(h: Heap, e: nat, w: nat, a: nat) returns (b: nat)
    requires FitsBut(h, e) && a in h.blocks && a <= w < h.end
    ensures In(h, w, b)
    decreases h.end - a
  {
    assert BlockOk(h, a);
    if w < End(h, a) {
      b := a;
    } else {
      b := FindBlock(h, e, w, End(h, a));
    }
  }

  // Every address of the grown heap lies in exactly one block.
  lemma Partition(h: Heap, w: nat)
    requires Fits(h) && h.start <= w < h.end
    ensures exists a: nat :: In(h, w, a)
    ensures forall a: nat, b: nat :: In(h, w, a) && In(h, w, b) ==> a == b
  {
    var b := FindBlock(h, 0, w, h.start);
    forall a: nat, c: nat | In(h, w, a) && In(h, w, c) ensures a == c { InOneBlock(h, 0, w, a, c); }
  }

  // ---- What live blocks keep ----

  ghost predicate LiveKeptAt(h0: Heap, h1: Heap, a: nat) {
    Is(h0, a, Live) ==>
      && a in h1.blocks && h1.blocks[a] == h0.blocks[a]
      && forall w: nat {:trigger Get(h1.mem, w)} :: a <= w < End(h0, a) ==> Get(h1.mem, w) == Get(h0.mem, w)
  }

  ghost predicate LiveKept(h0: Heap, h1: Heap) {
    forall a: nat {:trigger LiveKeptAt(h0, h1, a)} :: LiveKeptAt(h0, h1, a)
  }

  lemma LiveKeptChain(h0: Heap, h1: Heap, h2: Heap)
    requires LiveKept(h0, h1) && LiveKept(h1, h2)
    ensures LiveKept(h0, h2)
  {
    forall a: nat ensures LiveKeptAt(h0, h2, a) {
      assert LiveKeptAt(h0, h1, a) && LiveKeptAt(h1, h2, a);
      if Is(h0, a, Live) {
        forall w: nat | a <= w < End(h0, a) ensures Get(h2.mem, w) == Get(h0.mem, w) {
          assert Get(h1.mem, w) == Get(h0.mem, w);
        }
      }
    }
  }

  // ---- Links ----

  // Store v in the cell that names the n-th block of list l: the head, or the
  // next field of the block before.
  function SetHead(head: seq<nat>, l: nat, n: nat, v: nat): seq<nat>
    requires |head| == LISTS && l < LISTS
  {
    if n == 0 then head[l := v] else head
  }

  function SetNext(lists: seq<seq<nat>>, mem: map<nat, nat>, l: nat, n: nat, v: nat): map<nat, nat>
    requires |lists| == LISTS && l < LISTS && n <= |lists[l]|
  {
    if n == 0 then mem else mem[lists[l][n - 1] + 4 := v]
  }

  function Replaced(s: seq<nat>, n: nat, v: nat): seq<nat>
    requires n < |s|
  {
    s[n := v]
  }

  function Without(s: seq<nat>, n: nat): seq<nat>
    requires n < |s|
  {
    s[..n] + s[n + 1..]
  }

  // Take the n-th block off list l.
  ghost function Unlink(h: Heap, l: nat, n: nat, k: Kind): Heap
    requires |h.head| == LISTS && |h.lists| == LISTS && l < LISTS && n < |h.lists[l]| && h.lists[l][n] in h.blocks
  {
    var a := h.lists[l][n];
    Heap(SetNext(h.lists, h.mem, l, n, At(h, l, n + 1)), SetHead(h.head, l, n, At(h, l, n + 1)), h.start, h.end,
         h.blocks[a := Block(h.blocks[a].len, k)], h.lists[l := Without(h.lists[l], n)])
  }

  lemma UnlinkKeepsFit(h: Heap, e: nat, l: nat, n: nat, k: Kind)
    requires FitsBut(h, e) && l < LISTS && n < |h.lists[l]| && h.lists[l][n] in h.blocks && !k.Free?
    ensures FitsBut(Unlink(h, l, n, k), e)
  {
    var g := Unlink(h, l, n, k);
    var x := h.lists[l][n];
    assert LinkOk(h, l, n);
    forall a: nat | a in g.blocks ensures BlockOk(g, a) { assert BlockOk(h, a); UnlinkBlock(h, e, l, n, k, a); }
    forall a: nat, b: nat ensures Ordered(g, a, b) { assert Ordered(h, a, b); }
    forall m: nat, i: nat ensures LinkOk(g, m, i) { UnlinkLink(h, e, l, n, k, m, i); }
    forall m: nat, i: nat, j: nat ensures DistinctOk(g, m, i, j) {
      assert DistinctOk(h, m, i, j) && DistinctOk(h, m, i, j + 1) && DistinctOk(h, m, i + 1, j + 1);
    }
    forall a: nat, b: nat | b != e ensures Apart(g, a, b) { assert Apart(h, a, b); }
  }

  lemma UnlinkBlock(h: Heap, e: nat, l: nat, n: nat, k: Kind, a: nat)
    requires FitsBut(h, e) && l < LISTS && n < |h.lists[l]| && h.lists[l][n] in h.blocks && !k.Free?
    requires a in h.blocks
    ensures BlockOk(Unlink(h, l, n, k), a)
  {
    assert BlockOk(h, a);
    assert LinkOk(h, l, n);
    if n > 0 {
      var p := h.lists[l][n - 1];
      assert LinkOk(h, l, n - 1) && BlockOk(h, p) && Ordered(h, p, a) && Ordered(h, a, p);
    }
    if h.blocks[a].kind == Free(l) && a != h.lists[l][n] {
      var i: nat :| i < |h.lists[l]| && h.lists[l][i] == a;
      assert Without(h.lists[l], n)[if i < n then i else i - 1] == a;
    }
  }

  lemma UnlinkLink(h: Heap, e: nat, l: nat, n: nat, k: Kind, m: nat, i: nat)
    requires FitsBut(h, e) && l < LISTS && n < |h.lists[l]| && h.lists[l][n] in h.blocks && !k.Free?
    ensures LinkOk(Unlink(h, l, n, k), m, i)
  {
    assert LinkOk(h, l, n);
    assert LinkOk(h, m, i) && LinkOk(h, m, i + 1);
    assert DistinctOk(h, l, n, i + 1) && DistinctOk(h, l, i, n);
    if n > 0 {
      var p := h.lists[l][n - 1];
      assert LinkOk(h, l, n - 1) && BlockOk(h, p);
      assert DistinctOk(h, l, n - 1, i) && DistinctOk(h, l, n - 1, i + 1) && DistinctOk(h, l, i, n - 1);
    }
  }

  // A write to the header of a block that is not live changes no live block.
  lemma WriteElsewhere(h: Heap, e: nat, p: nat, w: nat, a: nat)
    requires FitsBut(h, e) && p in h.blocks && h.blocks[p].kind != Live && p <= w < End(h, p)
    requires Is(h, a, Live)
    ensures !(a <= w < End(h, a))
  {
    assert Ordered(h, a, p) && Ordered(h, p, a);
  }

  lemma UnlinkKeepsLive(h: Heap, e: nat, l: nat, n: nat, k: Kind)
    requires FitsBut(h, e) && l < LISTS && n < |h.lists[l]| && h.lists[l][n] in h.blocks
    ensures LiveKept(h, Unlink(h, l, n, k))
  {
    assert LinkOk(h, l, n);
    forall a: nat ensures LiveKeptAt(h, Unlink(h, l, n, k), a) {
      if Is(h, a, Live) && n > 0 {
        var p := h.lists[l][n - 1];
        assert LinkOk(h, l, n - 1) && BlockOk(h, p);
        WriteElsewhere(h, e, p, p + 4, a);
      }
    }
  }

  // Storing in an unlinked block's header and unlinking it commute.
  lemma UnlinkMemory(h: Heap, e: nat, l: nat, n: nat, v: nat, w: nat)
    requires FitsBut(h, e) && l < LISTS && n < |h.lists[l]|
    ensures var x := h.lists[l][n];
      && x in h.blocks && Get(h.mem, x + 4) == At(h, l, n + 1)
      && SetNext(h.lists, h.mem[x := v], l, n, w) == SetNext(h.lists, h.mem, l, n, w)[x := v]
  {
    assert LinkOk(h, l, n);
    var x := h.lists[l][n];
    if n > 0 {
      var p := h.lists[l][n - 1];
      assert LinkOk(h, l, n - 1) && BlockOk(h, p) && BlockOk(h, x) && Ordered(h, p, x) && Ordered(h, x, p);
      assert DistinctOk(h, l, n - 1, n);
    }
  }

  // ---- Splitting ----

  // Cut the n-th block of list l after `size` payload bytes: the lower part is
  // handed out, the upper part takes its place on the list.
  ghost function Split(h: Heap, l: nat, n: nat, size: nat): Heap
    requires |h.head| == LISTS && |h.lists| == LISTS && l < LISTS && n < |h.lists[l]| && h.lists[l][n] in h.blocks
    requires size + HEADER <= h.blocks[h.lists[l][n]].len
  {
    var x := h.lists[l][n];
    var y: nat := x + HEADER + size;
    var rest := h.blocks[x].len - HEADER - size;
    var mem := h.mem[y := if rest >= HEADER then rest - HEADER else 0][x := size][y + 4 := At(h, l, n + 1)];
    Heap(SetNext(h.lists, mem, l, n, y), SetHead(h.head, l, n, y), h.start, h.end,
         h.blocks[x := Block(HEADER + size, Live)][y := Block(rest, Free(l))], h.lists[l := Replaced(h.lists[l], n, y)])
  }

  ghost predicate CanSplit(h: Heap, l: nat, n: nat, size: nat) {
    && Fits(h) && l < LISTS && n < |h.lists[l]| && h.lists[l][n] in h.blocks
    && Mul4(size) && size > 0 && h.blocks[h.lists[l][n]].len >= HEADER + size + HEADER + 4
  }

  lemma SplitPlaces(h: Heap, l: nat, n: nat, size: nat, a: nat)
    requires CanSplit(h, l, n, size) && a in h.blocks
    ensures var x := h.lists[l][n];
      && Is(h, x, Free(l)) && BlockOk(h, x) && h.start <= x
      && x + HEADER + size != a && End(h, a) != x + HEADER + size
      && (a != x ==> End(h, a) <= x || a >= End(h, x))
  {
    var x := h.lists[l][n];
    assert LinkOk(h, l, n) && BlockOk(h, x) && BlockOk(h, a);
    assert Ordered(h, a, x) && Ordered(h, x, a);
  }

  lemma SplitBlock(h: Heap, l: nat, n: nat, size: nat, a: nat)
    requires CanSplit(h, l, n, size) && a in Split(h, l, n, size).blocks
    ensures BlockOk(Split(h, l, n, size), a)
  {
    var g := Split(h, l, n, size);
    var x := h.lists[l][n];
    var y: nat := x + HEADER + size;
    SplitPlaces(h, l, n, size, x);
    Mul4Sum(HEADER, size);
    Mul4Sum(x, HEADER + size);
    Mul4Sum(h.blocks[x].len, HEADER + size);
    hide Mul4;
    assert g.lists[l][n] == y;
    if n > 0 {
      var p := h.lists[l][n - 1];
      assert LinkOk(h, l, n - 1) && DistinctOk(h, l, n - 1, n);
      SplitPlaces(h, l, n, size, p);
      assert BlockOk(h, p);
      if a in h.blocks { assert Ordered(h, p, a) && Ordered(h, a, p); }
    }
    if a in h.blocks && a != x {
      SplitPlaces(h, l, n, size, a);
      assert BlockOk(h, a);
      if h.blocks[a].kind == Free(l) {
        var i: nat :| i < |h.lists[l]| && h.lists[l][i] == a;
        assert g.lists[l][i] == a;
      }
    }
  }

  // A block z that stays where it is keeps its next field, unless it is the
  // one before the split block.
  lemma SplitNext(h: Heap, l: nat, n: nat, size: nat, z: nat)
    requires CanSplit(h, l, n, size) && z in h.blocks && z != h.lists[l][n] && h.blocks[z].kind.Free?
    ensures Get(Split(h, l, n, size).mem, z + 4) ==
      if n > 0 && z == h.lists[l][n - 1] then h.lists[l][n] + HEADER + size else Get(h.mem, z + 4)
  {
    hide Mul4;
    SplitPlaces(h, l, n, size, z);
    assert BlockOk(h, z);
    if n > 0 {
      var p := h.lists[l][n - 1];
      assert LinkOk(h, l, n - 1) && BlockOk(h, p) && Ordered(h, p, z) && Ordered(h, z, p);
    }
  }

  lemma SplitLink(h: Heap, l: nat, n: nat, size: nat, m: nat, i: nat)
    requires CanSplit(h, l, n, size)
    ensures LinkOk(Split(h, l, n, size), m, i)
  {
    hide Mul4;
    var x := h.lists[l][n];
    SplitPlaces(h, l, n, size, x);
    assert LinkOk(h, l, n) && LinkOk(h, m, i);
    assert DistinctOk(h, l, n, i) && DistinctOk(h, l, i, n);
    if n > 0 {
      assert LinkOk(h, l, n - 1) && DistinctOk(h, l, n - 1, n);
      assert DistinctOk(h, l, n - 1, i) && DistinctOk(h, l, i, n - 1);
      SplitPlaces(h, l, n, size, h.lists[l][n - 1]);
      assert BlockOk(h, h.lists[l][n - 1]);
    }
    if m < LISTS && i < |h.lists[m]| && !(m == l && i == n) {
      SplitNext(h, l, n, size, h.lists[m][i]);
      SplitPlaces(h, l, n, size, h.lists[m][i]);
    }
  }

  lemma SplitDistinct(h: Heap, l: nat, n: nat, size: nat, m: nat, i: nat, j: nat)
    requires CanSplit(h, l, n, size)
    ensures DistinctOk(Split(h, l, n, size), m, i, j)
  {
    hide Mul4;
    assert DistinctOk(h, m, i, j) && LinkOk(h, m, i) && LinkOk(h, m, j);
    if m < LISTS && i < j < |h.lists[m]| {
      SplitPlaces(h, l, n, size, h.lists[m][i]);
      SplitPlaces(h, l, n, size, h.lists[m][j]);
    }
  }

  lemma SplitOrder(h: Heap, l: nat, n: nat, size: nat, a: nat, b: nat)
    requires CanSplit(h, l, n, size)
    ensures Ordered(Split(h, l, n, size), a, b)
  {
    hide Mul4;
    assert Ordered(h, a, b);
    SplitPlaces(h, l, n, size, h.lists[l][n]);
    if a in h.blocks { SplitPlaces(h, l, n, size, a); }
    if b in h.blocks { SplitPlaces(h, l, n, size, b); }
  }

  lemma SplitKeepsFit(h: Heap, l: nat, n: nat, size: nat)
    requires CanSplit(h, l, n, size)
    ensures Fits(Split(h, l, n, size))
  {
    hide Mul4;
    var g := Split(h, l, n, size);
    var x := h.lists[l][n];
    SplitPlaces(h, l, n, size, x);
    forall a: nat | a in g.blocks ensures BlockOk(g, a) { SplitBlock(h, l, n, size, a); }
    forall a: nat, b: nat ensures Ordered(g, a, b) { SplitOrder(h, l, n, size, a, b); }
    forall m: nat, i: nat ensures LinkOk(g, m, i) { SplitLink(h, l, n, size, m, i); }
    forall m: nat, i: nat, j: nat ensures DistinctOk(g, m, i, j) { SplitDistinct(h, l, n, size, m, i, j); }
    forall a: nat, b: nat | b != 0 ensures Apart(g, a, b) {
      assert Apart(h, a, b) && Apart(h, x, b);
      if a in h.blocks { SplitPlaces(h, l, n, size, a); }
    }
  }

  lemma SplitKeepsLive(h: Heap, l: nat, n: nat, size: nat)
    requires CanSplit(h, l, n, size)
    ensures LiveKept(h, Split(h, l, n, size))
  {
    var x := h.lists[l][n];
    forall a: nat ensures LiveKeptAt(h, Split(h, l, n, size), a) {
      if Is(h, a, Live) {
        SplitPlaces(h, l, n, size, a);
        if n > 0 {
          var p := h.lists[l][n - 1];
          assert LinkOk(h, l, n - 1) && BlockOk(h, p);
          WriteElsewhere(h, 0, p, p + 4, a);
        }
      }
    }
  }

  // ---- Blocks in flight ----

  // Change what a block that is on no list is for.
  ghost function Mark(h: Heap, a: nat, k: Kind): Heap
    requires a in h.blocks
  {
    h.(blocks := h.blocks[a := Block(h.blocks[a].len, k)])
  }

  lemma MarkKeepsFit(h: Heap, e: nat, a: nat, k: Kind)
    requires FitsBut(h, e) && a in h.blocks && !h.blocks[a].kind.Free? && !k.Free?
    requires (k != Lost ==> h.blocks[a].kind != Lost)
    ensures FitsBut(Mark(h, a, k), e)
    ensures forall b: nat {:trigger Is(h, b, Live)} :: b != a && Is(h, b, Live) ==> LiveKeptAt(h, Mark(h, a, k), b)
  {
    var g := Mark(h, a, k);
    forall b: nat | b in g.blocks ensures BlockOk(g, b) { assert BlockOk(h, b); }
    forall b: nat, c: nat ensures Ordered(g, b, c) { assert Ordered(h, b, c); }
    forall l: nat, n: nat ensures LinkOk(g, l, n) { assert LinkOk(h, l, n); }
    forall l: nat, m: nat, n: nat ensures DistinctOk(g, l, m, n) { assert DistinctOk(h, l, m, n); }
    forall b: nat, c: nat | c != e ensures Apart(g, b, c) { assert Apart(h, b, c); }
  }

  // Write into a lost block.
  lemma ScribbleKeepsFit(h: Heap, e: nat, a: nat, w: nat, v: nat)
    requires FitsBut(h, e) && Is(h, a, Lost) && a <= w < End(h, a)
    ensures FitsBut(h.(mem := h.mem[w := v]), e) && LiveKept(h, h.(mem := h.mem[w := v]))
  {
    var g := h.(mem := h.mem[w := v]);
    forall b: nat | b in g.blocks
      ensures BlockOk(g, b) { assert BlockOk(h, b) && Ordered(h, a, b) && Ordered(h, b, a); }
    forall b: nat, c: nat ensures Ordered(g, b, c) { assert Ordered(h, b, c); }
    forall l: nat, n: nat ensures LinkOk(g, l, n) {
      assert LinkOk(h, l, n);
      if l < LISTS && n < |h.lists[l]| {
        var x := h.lists[l][n];
        assert BlockOk(h, x) && Ordered(h, a, x) && Ordered(h, x, a);
      }
    }
    forall l: nat, m: nat, n: nat ensures DistinctOk(g, l, m, n) { assert DistinctOk(h, l, m, n); }
    forall b: nat, c: nat | c != e ensures Apart(g, b, c) { assert Apart(h, b, c); }
    forall b: nat ensures LiveKeptAt(h, g, b) {
      if Is(h, b, Live) { WriteElsewhere(h, e, a, w, b); }
    }
  }

  // Write into the payload of a live block.
  lemma PayloadKeepsFit(h: Heap, a: nat, w: nat, v: nat)
    requires Fits(h) && Is(h, a, Live) && a + HEADER <= w < End(h, a)
    ensures Fits(h.(mem := h.mem[w := v]))
  {
    var g := h.(mem := h.mem[w := v]);
    forall b: nat | b in g.blocks
      ensures BlockOk(g, b) { assert BlockOk(h, b) && Ordered(h, a, b) && Ordered(h, b, a); }
    forall b: nat, c: nat ensures Ordered(g, b, c) { assert Ordered(h, b, c); }
    forall l: nat, n: nat ensures LinkOk(g, l, n) {
      assert LinkOk(h, l, n);
      if l < LISTS && n < |h.lists[l]| {
        var x := h.lists[l][n];
        assert BlockOk(h, x) && Ordered(h, a, x) && Ordered(h, x, a);
      }
    }
    forall l: nat, m: nat, n: nat ensures DistinctOk(g, l, m, n) { assert DistinctOk(h, l, m, n); }
    forall b: nat, c: nat | c != 0 ensures Apart(g, b, c) { assert Apart(h, b, c); }
  }

  // Join two touching blocks in flight.
  ghost function Join(h: Heap, lo: nat, hi: nat): Heap
    requires lo in h.blocks && hi in h.blocks && h.blocks[lo].len >= HEADER
  {
    h.(mem := h.mem[lo := h.blocks[lo].len + h.blocks[hi].len - HEADER],
       blocks := (h.blocks - {hi})[lo := Block(h.blocks[lo].len + h.blocks[hi].len, Held)])
  }

  ghost predicate CanJoin(h: Heap, e: nat, lo: nat, hi: nat) {
    FitsBut(h, e) && Is(h, lo, Held) && Is(h, hi, Held) && End(h, lo) == hi && lo != hi && h.blocks[lo].len >= HEADER
  }

  lemma JoinBlock(h: Heap, e: nat, lo: nat, hi: nat, a: nat)
    requires CanJoin(h, e, lo, hi) && a in Join(h, lo, hi).blocks
    ensures BlockOk(Join(h, lo, hi), a)
  {
    assert BlockOk(h, a) && BlockOk(h, lo) && BlockOk(h, hi);
    Mul4Sum(h.blocks[lo].len, h.blocks[hi].len);
    hide Mul4;
    assert Ordered(h, a, lo) && Ordered(h, lo, a) && Ordered(h, a, hi) && Ordered(h, hi, a) && Ordered(h, lo, hi);
    if End(h, lo) in h.blocks { assert Ordered(h, hi, End(h, hi)); }
  }

  lemma JoinKeepsFit(h: Heap, e: nat, lo: nat, hi: nat)
    requires CanJoin(h, e, lo, hi)
    ensures FitsBut(Join(h, lo, hi), e) && LiveKept(h, Join(h, lo, hi))
  {
    var g := Join(h, lo, hi);
    assert BlockOk(h, lo) && BlockOk(h, hi);
    forall a: nat | a in g.blocks ensures BlockOk(g, a) { JoinBlock(h, e, lo, hi, a); }
    hide Mul4;
    forall a: nat, b: nat ensures Ordered(g, a, b) {
      assert Ordered(h, a, b) && Ordered(h, hi, b) && Ordered(h, lo, hi) && Ordered(h, b, hi) && Ordered(h, lo, b);
    }
    forall l: nat, n: nat ensures LinkOk(g, l, n) {
      assert LinkOk(h, l, n);
      if l < LISTS && n < |h.lists[l]| {
        var x := h.lists[l][n];
        assert BlockOk(h, x) && Ordered(h, lo, x) && Ordered(h, x, lo);
      }
    }
    forall l: nat, m: nat, n: nat ensures DistinctOk(g, l, m, n) { assert DistinctOk(h, l, m, n); }
    forall a: nat, b: nat | b != e ensures Apart(g, a, b) { assert Apart(h, a, b); }
    forall a: nat ensures LiveKeptAt(h, g, a) {
      if Is(h, a, Live) { WriteElsewhere(h, e, lo, lo, a); }
    }
  }

  // Put a block in flight on list l, in front of the n-th.
  ghost function Insert(h: Heap, l: nat, n: nat, a: nat): Heap
    requires |h.head| == LISTS && |h.lists| == LISTS && l < LISTS && n <= |h.lists[l]| && a in h.blocks
  {
    var row: seq<nat> := h.lists[l][..n] + [a] + h.lists[l][n..];
    Heap(SetNext(h.lists, h.mem[a + 4 := At(h, l, n)], l, n, a), SetHead(h.head, l, n, a), h.start, h.end,
         h.blocks[a := Block(h.blocks[a].len, Free(l))], h.lists[l := row])
  }

  // On the general list, a block must not touch the free block above it.
  ghost predicate CanInsert(h: Heap, e: nat, l: nat, n: nat, a: nat) {
    && FitsBut(h, e) && l < LISTS && n <= |h.lists[l]| && Is(h, a, Held)
    && (l == QUICK_LISTS ==>
      (e == 0 || e == a) && forall b: nat {:trigger Is(h, b, Free(QUICK_LISTS))} :: Is(h, b, Free(QUICK_LISTS)) ==>
        End(h, a) != b)
  }

  lemma InsertNext(h: Heap, e: nat, l: nat, n: nat, a: nat, z: nat)
    requires CanInsert(h, e, l, n, a) && z in h.blocks && z != a && h.blocks[z].kind.Free?
    ensures Get(Insert(h, l, n, a).mem, z + 4) == if n > 0 && z == h.lists[l][n - 1] then a else Get(h.mem, z + 4)
    ensures Get(Insert(h, l, n, a).mem, a + 4) == At(h, l, n)
  {
    hide Mul4;
    assert BlockOk(h, z) && BlockOk(h, a) && Ordered(h, a, z) && Ordered(h, z, a);
    if n > 0 {
      var p := h.lists[l][n - 1];
      assert LinkOk(h, l, n - 1) && BlockOk(h, p) && Ordered(h, p, z) && Ordered(h, z, p) && Ordered(h, p, a);
      assert Ordered(h, a, p);
    }
  }

  lemma InsertBlock(h: Heap, e: nat, l: nat, n: nat, a: nat, b: nat)
    requires CanInsert(h, e, l, n, a) && b in h.blocks
    ensures BlockOk(Insert(h, l, n, a), b)
  {
    hide Mul4;
    var g := Insert(h, l, n, a);
    assert BlockOk(h, b) && BlockOk(h, a) && Ordered(h, a, b) && Ordered(h, b, a);
    if n > 0 {
      var p := h.lists[l][n - 1];
      assert LinkOk(h, l, n - 1) && BlockOk(h, p) && Ordered(h, p, b) && Ordered(h, b, p);
    }
    assert g.lists[l][n] == a;
    if h.blocks[b].kind == Free(l) {
      var i: nat :| i < |h.lists[l]| && h.lists[l][i] == b;
      assert g.lists[l][if i < n then i else i + 1] == b;
    }
  }

  lemma InsertLink(h: Heap, e: nat, l: nat, n: nat, a: nat, m: nat, i: nat)
    requires CanInsert(h, e, l, n, a)
    ensures LinkOk(Insert(h, l, n, a), m, i)
  {
    hide Mul4;
    var before := if i == 0 then 0 else i - 1;
    assert LinkOk(h, m, i) && LinkOk(h, m, before);
    if n > 0 {
      assert LinkOk(h, l, n - 1) && DistinctOk(h, l, n - 1, i) && DistinctOk(h, l, n - 1, before);
      assert DistinctOk(h, l, i, n - 1);
      InsertNext(h, e, l, n, a, h.lists[l][n - 1]);
    }
    if m < LISTS && i < |Insert(h, l, n, a).lists[m]| {
      var z := Insert(h, l, n, a).lists[m][i];
      if z != a { InsertNext(h, e, l, n, a, z); }
      assert BlockOk(h, a);
    }
  }

  lemma InsertDistinct(h: Heap, e: nat, l: nat, n: nat, a: nat, m: nat, i: nat, j: nat)
    requires CanInsert(h, e, l, n, a)
    ensures DistinctOk(Insert(h, l, n, a), m, i, j)
  {
    hide Mul4;
    var i0, j0 := if i > n then i - 1 else i, if j > n then j - 1 else j;
    assert LinkOk(h, m, i) && LinkOk(h, m, j) && LinkOk(h, m, i0) && LinkOk(h, m, j0);
    assert DistinctOk(h, m, i, j) && DistinctOk(h, m, i0, j0);
  }

  lemma InsertKeepsFit(h: Heap, e: nat, l: nat, n: nat, a: nat)
    requires CanInsert(h, e, l, n, a)
    ensures FitsBut(Insert(h, l, n, a), if l == QUICK_LISTS then a else e)
    ensures LiveKept(h, Insert(h, l, n, a))
  {
    hide Mul4;
    var g := Insert(h, l, n, a);
    assert BlockOk(h, a);
    forall b: nat | b in g.blocks ensures BlockOk(g, b) { InsertBlock(h, e, l, n, a, b); }
    forall b: nat, c: nat ensures Ordered(g, b, c) { assert Ordered(h, b, c); }
    forall m: nat, i: nat ensures LinkOk(g, m, i) { InsertLink(h, e, l, n, a, m, i); }
    forall m: nat, i: nat, j: nat ensures DistinctOk(g, m, i, j) { InsertDistinct(h, e, l, n, a, m, i, j); }
    forall b: nat, c: nat | c != (if l == QUICK_LISTS then a else e) ensures Apart(g, b, c) {
      assert c in h.blocks ==> BlockOk(h, c);
      assert c != 0 ==> Apart(h, b, c);
      assert Is(h, c, Free(QUICK_LISTS)) ==> l != QUICK_LISTS || End(h, a) != c;
    }
    forall b: nat ensures LiveKeptAt(h, g, b) {
      if Is(h, b, Live) {
        WriteElsewhere(h, e, a, a + 4, b);
        if n > 0 {
          var p := h.lists[l][n - 1];
          assert LinkOk(h, l, n - 1) && BlockOk(h, p);
          WriteElsewhere(h, e, p, p + 4, b);
        }
      }
    }
  }

  // A block that touches no free block below closes the exception.
  lemma CloseException(h: Heap, e: nat)
    requires FitsBut(h, e)
    requires forall b: nat {:trigger Apart(h, b, e)} :: Apart(h, b, e)
    ensures Fits(h)
  {
    forall a: nat, b: nat | b != 0 ensures Apart(h, a, b) {
      if b == e { assert Apart(h, a, e); }
    }
  }

  // ---- Growing ----

  // A fresh block in flight at the top of the heap.
  ghost function Grow(h: Heap, len: nat): Heap
    requires len >= HEADER
  {
    h.(mem := h.mem[h.end := len - HEADER], end := h.end + len, blocks := h.blocks[h.end := Block(len, Held)])
  }

  lemma TopIsFree(h: Heap)
    requires Fits(h)
    ensures h.end !in h.blocks
    ensures forall a: nat {:trigger End(h, a)} :: a in h.blocks ==> a < h.end && End(h, a) <= h.end
  {
    assert h.end in h.blocks ==> BlockOk(h, h.end);
    forall a: nat | a in h.blocks ensures a < h.end && End(h, a) <= h.end { assert BlockOk(h, a); }
  }

  lemma GrowBlock(h: Heap, len: nat, a: nat)
    requires Fits(h) && len >= HEADER + 4 && Mul4(len) && a in Grow(h, len).blocks
    ensures BlockOk(Grow(h, len), a)
  {
    Mul4Sum(h.end, len);
    hide Mul4;
    TopIsFree(h);
    if a in h.blocks { assert BlockOk(h, a); }
  }

  lemma GrowKeepsFit(h: Heap, len: nat)
    requires Fits(h) && len >= HEADER + 4 && Mul4(len)
    ensures Fits(Grow(h, len)) && LiveKept(h, Grow(h, len))
  {
    var g := Grow(h, len);
    Mul4Sum(h.end, len);
    hide Mul4;
    TopIsFree(h);
    forall a: nat | a in g.blocks ensures BlockOk(g, a) { GrowBlock(h, len, a); }
    hide BlockOk;
    forall a: nat, b: nat ensures Ordered(g, a, b) {
      assert Ordered(h, a, b);
      assert a in h.blocks ==> End(h, a) <= h.end;
      assert b in h.blocks ==> End(h, b) <= h.end;
    }
    forall l: nat, n: nat ensures LinkOk(g, l, n) { GrowLink(h, len, l, n); }
    forall l: nat, m: nat, n: nat ensures DistinctOk(g, l, m, n) { assert DistinctOk(h, l, m, n); }
    forall a: nat, b: nat | b != 0 ensures Apart(g, a, b) { assert Apart(h, a, b); }
    forall a: nat ensures LiveKeptAt(h, g, a) { assert a in h.blocks ==> End(h, a) <= h.end; }
  }

  lemma GrowLink(h: Heap, len: nat, l: nat, n: nat)
    requires Fits(h) && len >= HEADER
    ensures LinkOk(Grow(h, len), l, n)
  {
    hide Mul4;
    TopIsFree(h);
    assert LinkOk(h, l, n);
    if l < LISTS && n < |h.lists[l]| { assert BlockOk(h, h.lists[l][n]); }
  }

  // ---- Carving ----

  // Cut `len` bytes off the bottom of a lost block, as a block in flight.
  ghost function Chop(h: Heap, a: nat, len: nat): Heap
    requires a in h.blocks && HEADER <= len <= h.blocks[a].len
  {
    var rest := h.blocks[a].len - len;
    h.(mem := h.mem[a := len - HEADER][a + 4 := a + len],
       blocks := h.blocks[a := Block(len, Held)] + (if rest == 0 then map[] else map[a + len := Block(rest, Lost)]))
  }

  ghost predicate CanChop(h: Heap, a: nat, len: nat) {
    Fits(h) && Is(h, a, Lost) && HEADER + 4 <= len <= h.blocks[a].len && Mul4(len)
  }

  lemma ChopPlaces(h: Heap, a: nat, len: nat, b: nat)
    requires CanChop(h, a, len) && b in h.blocks && b != a
    ensures End(h, b) <= a || b >= End(h, a)
    ensures len < h.blocks[a].len ==> a + len != b && End(h, b) != a + len
  {
    assert Ordered(h, a, b) && Ordered(h, b, a) && BlockOk(h, b) && BlockOk(h, a);
  }

  lemma ChopBlock(h: Heap, a: nat, len: nat, b: nat)
    requires CanChop(h, a, len) && b in Chop(h, a, len).blocks
    ensures BlockOk(Chop(h, a, len), b)
  {
    assert BlockOk(h, a);
    Mul4Sum(a, len);
    Mul4Sum(h.blocks[a].len, len);
    hide Mul4;
    if b in h.blocks {
      assert BlockOk(h, b);
      if b != a { ChopPlaces(h, a, len, b); }
    }
  }

  lemma ChopOrder(h: Heap, a: nat, len: nat, b: nat, c: nat)
    requires CanChop(h, a, len)
    ensures Ordered(Chop(h, a, len), b, c)
  {
    hide Mul4, BlockOk;
    assert Ordered(h, b, c);
    if b in h.blocks && b != a { ChopPlaces(h, a, len, b); }
    if c in h.blocks && c != a { ChopPlaces(h, a, len, c); }
  }

  lemma ChopLink(h: Heap, a: nat, len: nat, l: nat, n: nat)
    requires CanChop(h, a, len)
    ensures LinkOk(Chop(h, a, len), l, n)
  {
    hide Mul4;
    assert LinkOk(h, l, n);
    if l < LISTS && n < |h.lists[l]| {
      assert BlockOk(h, h.lists[l][n]);
      ChopPlaces(h, a, len, h.lists[l][n]);
    }
  }

  lemma ChopKeepsFit(h: Heap, a: nat, len: nat)
    requires CanChop(h, a, len)
    ensures Fits(Chop(h, a, len)) && LiveKept(h, Chop(h, a, len))
  {
    hide Mul4;
    var g := Chop(h, a, len);
    forall b: nat | b in g.blocks ensures BlockOk(g, b) { ChopBlock(h, a, len, b); }
    hide BlockOk;
    forall b: nat, c: nat ensures Ordered(g, b, c) { ChopOrder(h, a, len, b, c); }
    forall l: nat, n: nat ensures LinkOk(g, l, n) { ChopLink(h, a, len, l, n); }
    forall l: nat, m: nat, n: nat ensures DistinctOk(g, l, m, n) { assert DistinctOk(h, l, m, n); }
    forall b: nat, c: nat | c != 0 ensures Apart(g, b, c) { assert Apart(h, b, c); }
    forall b: nat ensures LiveKeptAt(h, g, b) {
      if Is(h, b, Live) { ChopPlaces(h, a, len, b); }
    }
  }

  // Put a chain of blocks in flight, linked in this order, on the front of quick list l.
  ghost function PushAll(h: Heap, l: nat, cells: seq<nat>): Heap
    requires |h.head| == LISTS && |h.lists| == LISTS && l < LISTS && |cells| > 0
  {
    var row: seq<nat> := cells + h.lists[l];
    Heap(h.mem[cells[|cells| - 1] + 4 := h.head[l]], h.head[l := cells[0]], h.start, h.end,
         map a | a in h.blocks :: if a in cells then Block(h.blocks[a].len, Free(l)) else h.blocks[a],
         h.lists[l := row])
  }

  // The chain: distinct blocks in flight, each linked to the next.
  ghost predicate CellOk(h: Heap, cells: seq<nat>, n: nat) {
    n < |cells| ==>
      && Is(h, cells[n], Held)
      && (n + 1 < |cells| ==> cells[n] < cells[n + 1] && Get(h.mem, cells[n] + 4) == cells[n + 1])
  }

  ghost predicate ChainOk(h: Heap, cells: seq<nat>) {
    forall n: nat {:trigger CellOk(h, cells, n)} :: CellOk(h, cells, n)
  }

  lemma {:induction false} ChainAscends(h: Heap, cells: seq<nat>, m: nat, n: nat)
    requires ChainOk(h, cells) && m < n < |cells|
    ensures cells[m] < cells[n]
    decreases n
  {
    assert CellOk(h, cells, n - 1);
    if m < n - 1 { ChainAscends(h, cells, m, n - 1); }
  }

  lemma PushAllLink(h: Heap, l: nat, cells: seq<nat>, m: nat, i: nat)
    requires Fits(h) && l < QUICK_LISTS && |cells| > 0 && ChainOk(h, cells)
    ensures LinkOk(PushAll(h, l, cells), m, i)
  {
    hide Mul4;
    var last := |cells| - 1;
    forall c: nat | c < |cells| ensures Is(h, cells[c], Held) { assert CellOk(h, cells, c); }
    assert CellOk(h, cells, last) && BlockOk(h, cells[last]);
    if m < LISTS && i < |PushAll(h, l, cells).lists[m]| {
      var j := if m == l && i >= |cells| then i - |cells| else i;
      assert LinkOk(h, m, j) && CellOk(h, cells, i);
      var z := PushAll(h, l, cells).lists[m][i];
      if !(m == l && i < |cells|) {
        assert BlockOk(h, z) && Ordered(h, z, cells[last]) && Ordered(h, cells[last], z);
      } else if i < last {
        ChainAscends(h, cells, i, last);
        assert BlockOk(h, z) && Ordered(h, z, cells[last]);
      }
    }
  }

  lemma PushAllKeepsFit(h: Heap, l: nat, cells: seq<nat>)
    requires Fits(h) && l < QUICK_LISTS && |cells| > 0 && ChainOk(h, cells)
    ensures Fits(PushAll(h, l, cells)) && LiveKept(h, PushAll(h, l, cells))
  {
    hide Mul4;
    var g := PushAll(h, l, cells);
    var last := cells[|cells| - 1];
    assert CellOk(h, cells, |cells| - 1) && BlockOk(h, last);
    forall c: nat | c < |cells| ensures Is(h, cells[c], Held) { assert CellOk(h, cells, c); }
    forall b: nat | b in g.blocks
      ensures BlockOk(g, b) { assert BlockOk(h, b) && Ordered(h, b, last) && Ordered(h, last, b); }
    forall b: nat, c: nat ensures Ordered(g, b, c) { assert Ordered(h, b, c); }
    forall m: nat, i: nat ensures LinkOk(g, m, i) { PushAllLink(h, l, cells, m, i); }
    forall m: nat, i: nat, j: nat ensures DistinctOk(g, m, i, j) {
      if m < LISTS && i < j < |g.lists[m]| {
        if m == l && j < |cells| { ChainAscends(h, cells, i, j); }
        else if m == l {
          assert LinkOk(h, l, j - |cells|);
          if i >= |cells| { assert DistinctOk(h, l, i - |cells|, j - |cells|); }
        }
        else { assert DistinctOk(h, m, i, j); }
      }
    }
    forall b: nat, c: nat | c != 0 ensures Apart(g, b, c) { assert Apart(h, b, c); }
    forall b: nat ensures LiveKeptAt(h, g, b) {
      if Is(h, b, Live) { WriteElsewhere(h, 0, last, last + 4, b); }
    }
  }

  // ---- The two merges of kfree ----

  ghost predicate CanMergeLower(h: Heap, n: nat, header: nat) {
    && Fits(h) && n < |h.lists[QUICK_LISTS]| && h.lists[QUICK_LISTS][n] in h.blocks
    && Is(h, header, Held) && End(h, h.lists[QUICK_LISTS][n]) == header
  }

  ghost function MergedLower(h: Heap, n: nat, header: nat): Heap
    requires CanMergeLower(h, n, header)
  {
    var lo := h.lists[QUICK_LISTS][n];
    assert BlockOk(h, lo) && LinkOk(h, QUICK_LISTS, n);
    Join(Unlink(h, QUICK_LISTS, n, Held), lo, header)
  }

  lemma MergeLowerWorks(h: Heap, n: nat, header: nat)
    requires CanMergeLower(h, n, header)
    ensures Fits(MergedLower(h, n, header)) && LiveKept(h, MergedLower(h, n, header))
    ensures var lo := h.lists[QUICK_LISTS][n];
      && Get(h.mem, lo) + (HEADER + Get(h.mem, header)) == h.blocks[lo].len + h.blocks[header].len - HEADER
      && Get(h.mem, lo + 4) == At(h, QUICK_LISTS, n + 1)
      && MergedLower(h, n, header).mem ==
         SetNext(h.lists, h.mem[lo := h.blocks[lo].len + h.blocks[header].len - HEADER],
                 QUICK_LISTS, n, At(h, QUICK_LISTS, n + 1))
  {
    var lo := h.lists[QUICK_LISTS][n];
    assert BlockOk(h, lo) && LinkOk(h, QUICK_LISTS, n) && BlockOk(h, header);
    var u := Unlink(h, QUICK_LISTS, n, Held);
    UnlinkKeepsFit(h, 0, QUICK_LISTS, n, Held);
    UnlinkKeepsLive(h, 0, QUICK_LISTS, n, Held);
    JoinKeepsFit(u, 0, lo, header);
    LiveKeptChain(h, u, Join(u, lo, header));
    UnlinkMemory(h, 0, QUICK_LISTS, n, h.blocks[lo].len + h.blocks[header].len - HEADER, At(h, QUICK_LISTS, n + 1));
  }

  ghost predicate CanMergeUpper(h: Heap, n: nat, header: nat) {
    && Fits(h) && n < |h.lists[QUICK_LISTS]| && h.lists[QUICK_LISTS][n] in h.blocks
    && Is(h, header, Held) && End(h, header) == h.lists[QUICK_LISTS][n]
  }

  ghost function MergedUpper(h: Heap, n: nat, header: nat): Heap
    requires CanMergeUpper(h, n, header)
  {
    var hi := h.lists[QUICK_LISTS][n];
    assert BlockOk(h, header) && LinkOk(h, QUICK_LISTS, n);
    Insert(Join(Unlink(h, QUICK_LISTS, n, Held), header, hi), QUICK_LISTS, n, header)
  }

  lemma MergeUpperWorks(h: Heap, n: nat, header: nat)
    requires CanMergeUpper(h, n, header)
    ensures FitsBut(MergedUpper(h, n, header), header) && LiveKept(h, MergedUpper(h, n, header))
    ensures MergedUpper(h, n, header).lists == h.lists[QUICK_LISTS := Replaced(h.lists[QUICK_LISTS], n, header)]
  {
    var hi := h.lists[QUICK_LISTS][n];
    assert BlockOk(h, header) && LinkOk(h, QUICK_LISTS, n) && BlockOk(h, hi);
    var u := Unlink(h, QUICK_LISTS, n, Held);
    UnlinkKeepsFit(h, 0, QUICK_LISTS, n, Held);
    UnlinkKeepsLive(h, 0, QUICK_LISTS, n, Held);
    var j := Join(u, header, hi);
    JoinKeepsFit(u, 0, header, hi);
    forall b: nat {:trigger Is(j, b, Free(QUICK_LISTS))} | Is(j, b, Free(QUICK_LISTS)) ensures End(j, header) != b {
      assert Apart(h, hi, b) && BlockOk(h, b);
    }
    InsertKeepsFit(j, 0, QUICK_LISTS, n, header);
    var row := h.lists[QUICK_LISTS];
    assert Without(row, n)[..n] + [header] + Without(row, n)[n..] == Replaced(row, n, header);
    LiveKeptChain(h, u, j);
    LiveKeptChain(h, j, MergedUpper(h, n, header));
  }

  lemma MergedUpperRow(h: Heap, n: nat, header: nat)
    requires CanMergeUpper(h, n, header)
    ensures MergedUpper(h, n, header).lists == h.lists[QUICK_LISTS := Replaced(h.lists[QUICK_LISTS], n, header)]
  {
    MergeUpperWorks(h, n, header);
  }

  lemma MergeUpperMemory(h: Heap, n: nat, header: nat)
    requires CanMergeUpper(h, n, header)
    ensures var hi := h.lists[QUICK_LISTS][n];
      && Get(h.mem, header) + (HEADER + Get(h.mem, hi)) == h.blocks[header].len + h.blocks[hi].len - HEADER
      && Get(h.mem, hi + 4) == At(h, QUICK_LISTS, n + 1)
      && MergedUpper(h, n, header).mem ==
         SetNext(h.lists,
                 h.mem[header := h.blocks[header].len + h.blocks[hi].len - HEADER]
                      [header + 4 := At(h, QUICK_LISTS, n + 1)],
                 QUICK_LISTS, n, header)
      && MergedUpper(h, n, header).head == SetHead(h.head, QUICK_LISTS, n, header)
  {
    var hi := h.lists[QUICK_LISTS][n];
    assert BlockOk(h, header) && LinkOk(h, QUICK_LISTS, n) && BlockOk(h, hi);
    if n > 0 {
      var p := h.lists[QUICK_LISTS][n - 1];
      assert LinkOk(h, QUICK_LISTS, n - 1) && BlockOk(h, p) && Ordered(h, p, header) && Ordered(h, header, p);
    }
  }

  // A lower neighbour found after the upper one: it is unlinked, its header
  // made to cover the block that is already back on the list, and forgotten.
  ghost predicate CanDrop(h: Heap, n: nat, header: nat) {
    && FitsBut(h, header) && n < |h.lists[QUICK_LISTS]| && h.lists[QUICK_LISTS][n] in h.blocks
    && Is(h, header, Free(QUICK_LISTS)) && End(h, h.lists[QUICK_LISTS][n]) == header
  }

  ghost function Dropped(h: Heap, n: nat, header: nat): Heap
    requires CanDrop(h, n, header)
  {
    var lo := h.lists[QUICK_LISTS][n];
    assert BlockOk(h, lo) && LinkOk(h, QUICK_LISTS, n);
    var u := Unlink(h, QUICK_LISTS, n, Lost);
    u.(mem := u.mem[lo := h.blocks[lo].len + h.blocks[header].len - HEADER])
  }

  lemma DropWorks(h: Heap, n: nat, header: nat)
    requires CanDrop(h, n, header)
    ensures Fits(Dropped(h, n, header)) && LiveKept(h, Dropped(h, n, header))
    ensures var lo := h.lists[QUICK_LISTS][n];
      && Is(Dropped(h, n, header), lo, Lost)
      && Get(h.mem, lo) + (HEADER + Get(h.mem, header)) == h.blocks[lo].len + h.blocks[header].len - HEADER
      && Get(h.mem, lo + 4) == At(h, QUICK_LISTS, n + 1)
      && Dropped(h, n, header).mem ==
         SetNext(h.lists, h.mem[lo := h.blocks[lo].len + h.blocks[header].len - HEADER],
                 QUICK_LISTS, n, At(h, QUICK_LISTS, n + 1))
  {
    var lo := h.lists[QUICK_LISTS][n];
    assert BlockOk(h, lo) && LinkOk(h, QUICK_LISTS, n) && BlockOk(h, header);
    var u, g := Unlink(h, QUICK_LISTS, n, Lost), Dropped(h, n, header);
    UnlinkKeepsFit(h, header, QUICK_LISTS, n, Lost);
    UnlinkKeepsLive(h, header, QUICK_LISTS, n, Lost);
    ScribbleKeepsFit(u, header, lo, lo, h.blocks[lo].len + h.blocks[header].len - HEADER);
    LiveKeptChain(h, u, g);
    var size := h.blocks[lo].len + h.blocks[header].len - HEADER;
    UnlinkMemory(h, header, QUICK_LISTS, n, size, At(h, QUICK_LISTS, n + 1));
    forall b: nat ensures Apart(g, b, header) {
      assert Ordered(h, b, lo) && Ordered(h, lo, b);
      if b in h.blocks { assert BlockOk(h, b); }
    }
    CloseException(g, header);
  }

  // No free block touches the dropped one from below.
  lemma DroppedIsApart(h: Heap, n: nat, header: nat, b: nat)
    requires CanDrop(h, n, header) && Is(Dropped(h, n, header), b, Free(QUICK_LISTS))
    ensures End(Dropped(h, n, header), b) != h.lists[QUICK_LISTS][n]
  {
    var lo := h.lists[QUICK_LISTS][n];
    assert LinkOk(h, QUICK_LISTS, n) && BlockOk(h, lo) && Apart(h, b, lo);
  }
}
