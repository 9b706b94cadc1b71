// How kmalloc cuts a fresh page into the blocks of a quick list.
module Carving {
  import opened HeapBlocks

  const PAGE_SIZE := 4096

  // One address after some cells were cut off the bottom of the page at a: a
  // cell, the rest of the page, or what was there before.
  ghost predicate Place(h0: Heap, a: nat, len: nat, cells: seq<nat>, rest: nat, h: Heap, b: nat) {
    if b in cells then b in h.blocks && h.blocks[b] == Block(len, Held)
    else if b == rest && rest < a + PAGE_SIZE then b in h.blocks && h.blocks[b] == Block(a + PAGE_SIZE - rest, Lost)
    else (b in h.blocks <==> b in h0.blocks && b != a) && (b in h.blocks ==> h.blocks[b] == h0.blocks[b])
  }

  // The k-th cell and the link in it.
  ghost predicate CellAt(a: nat, len: nat, cells: seq<nat>, h: Heap, k: nat) {
    k < |cells| ==> cells[k] == a + k * len && Get(h.mem, cells[k] + 4) == a + k * len + len
  }

  ghost predicate Carved(h0: Heap, a: nat, len: nat, cells: seq<nat>, rest: nat, h: Heap) {
    && Fits(h) && LiveKept(h0, h)
    && h.lists == h0.lists && h.head == h0.head && h.start == h0.start && h.end == h0.end
    && rest == a + |cells| * len && rest <= a + PAGE_SIZE
    && (forall b: nat {:trigger Place(h0, a, len, cells, rest, h, b)} :: Place(h0, a, len, cells, rest, h, b))
    && (forall k: nat {:trigger CellAt(a, len, cells, h, k)} :: CellAt(a, len, cells, h, k))
  }

  lemma CellBelow(a: nat, len: nat, k: nat, n: nat)
    requires k < n
    ensures a + k * len + len <= a + n * len
  {
    assert (k + 1) * len <= n * len;
  }

  // One more cell.
  lemma CarveOne(h0: Heap, a: nat, len: nat, cells: seq<nat>, rest: nat, h: Heap)
    requires Carved(h0, a, len, cells, rest, h) && rest + len <= a + PAGE_SIZE && Mul4(len) && len >= HEADER + 4
    ensures Is(h, rest, Lost) && len <= h.blocks[rest].len
    ensures Carved(h0, a, len, cells + [rest], rest + len, Chop(h, rest, len))
  {
    var more: seq<nat> := cells + [rest];
    assert more[|cells|] == rest;
    assert (|cells| + 1) * len == |cells| * len + len;
    forall k: nat | k < |cells| ensures cells[k] + len <= rest {
      assert CellAt(a, len, cells, h, k);
      CellBelow(a, len, k, |cells|);
    }
    assert Place(h0, a, len, cells, rest, h, rest);
    ChopKeepsFit(h, rest, len);
    var g := Chop(h, rest, len);
    LiveKeptChain(h0, h, g);
    hide Fits, LiveKept, Mul4;
    var above: nat := rest + len;
    forall b: nat ensures Place(h0, a, len, more, above, g, b) {
      assert Place(h0, a, len, cells, rest, h, b) && Place(h0, a, len, cells, rest, h, above);
    }
    forall k: nat ensures CellAt(a, len, more, g, k) { assert CellAt(a, len, cells, h, k); }
  }

  // The cells form a chain, and pushing it leaves the quick list with the page's
  // first cell in front and nothing in flight.
  lemma CarvedChain(h0: Heap, a: nat, len: nat, cells: seq<nat>, rest: nat, h: Heap)
    requires Carved(h0, a, len, cells, rest, h) && |cells| > 0 && len > 0
    ensures ChainOk(h, cells) && cells[0] == a && Get(h.mem, cells[|cells| - 1] + 4) == rest
  {
    assert CellAt(a, len, cells, h, 0) && CellAt(a, len, cells, h, |cells| - 1);
    assert |cells| * len == (|cells| - 1) * len + len;
    forall n: nat ensures CellOk(h, cells, n) {
      if n < |cells| {
        assert cells[n] in cells;
        assert Place(h0, a, len, cells, rest, h, cells[n]);
        assert CellAt(a, len, cells, h, n) && CellAt(a, len, cells, h, n + 1);
        assert (n + 1) * len == n * len + len;
      }
    }
  }

  // Afterwards no block is in flight or newly live, and what the cells leave of
  // the page is lost.
  lemma CarvedKinds(h0: Heap, a: nat, len: nat, cells: seq<nat>, rest: nat, h: Heap, l: nat, b: nat)
    requires Carved(h0, a, len, cells, rest, h) && |cells| > 0 && len > 0 && l < QUICK_LISTS
    requires b in PushAll(h, l, cells).blocks
    ensures var k := PushAll(h, l, cells).blocks[b].kind;
      && (k == Held || k == Live ==> b != a && Is(h0, b, k))
      && (k == Lost ==>
        (b != a && Is(h0, b, Lost)) || (b == rest && PushAll(h, l, cells).blocks[b].len == a + PAGE_SIZE - rest > 0))
  {
    CarvedChain(h0, a, len, cells, rest, h);
    assert Place(h0, a, len, cells, rest, h, b);
    assert a in cells;
  }
}
