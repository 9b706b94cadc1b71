// A run of kmalloc and kfree after which a block is lost.
module LostBlock {
  import opened HeapBlocks
  import opened Coalescing
  import opened Carving
  import opened KernelHeap

  // The general list.
  ghost predicate Row(h: Heap, row: seq<nat>) {
    Fits(h) && h.lists[QUICK_LISTS] == row
  }

  // The first block on an empty heap is a whole fresh one.
  lemma FirstRefresh(h: Heap, size: nat)
    requires Row(h, []) && h.blocks == map[] && size > 64
    ensures Row(Refreshed(h, size), [h.end])
    ensures Refreshed(h, size).blocks == map[h.end := Block(PageAlign(size + HEADER), Free(QUICK_LISTS))]
  {
    PageAlignUp(size + HEADER);
    var len := PageAlign(size + HEADER);
    GrowKeepsFit(h, len);
    var g := Grow(h, len);
    SameMark(g, h.end);
    CoalescedBlocks(g, h.end);
  }

  // Taking from a list of one block.
  lemma TakeOnly(h: Heap, y: nat, size: nat, g: Heap, ptr: nat)
    requires Row(h, [y]) && size > 0 && TakenFirst(h, g, QUICK_LISTS, size, ptr)
    ensures ptr == y + HEADER && y in h.blocks && size <= h.blocks[y].len - HEADER && Fits(g)
    ensures h.blocks[y].len - HEADER > Align(size) + HEADER ==>
      var z: nat := y + HEADER + Align(size);
      var rest := Block(h.blocks[y].len - HEADER - Align(size), Free(QUICK_LISTS));
      Row(g, [z]) && g.blocks == h.blocks[y := Block(HEADER + Align(size), Live)][z := rest]
    ensures h.blocks[y].len - HEADER <= Align(size) + HEADER ==>
      Row(g, []) && g.blocks == h.blocks[y := Block(h.blocks[y].len, Live)]
  {
    var n: nat :| FirstFit(h, QUICK_LISTS, size, n)
      && ptr == h.lists[QUICK_LISTS][n] + HEADER && g == Taken(h, QUICK_LISTS, n, size);
    TakenKeeps(h, QUICK_LISTS, n, size);
  }

  lemma OnlyFits(h: Heap, y: nat, size: nat)
    requires Row(h, [y]) && y in h.blocks && h.blocks[y].len - HEADER >= size
    ensures SomethingFits(h, QUICK_LISTS, size)
  {
    assert h.lists[QUICK_LISTS][0] == y;
  }

  // Freeing a large block that touches no block of the list puts it in front.
  lemma FreeAlone(h: Heap, row: seq<nat>, x: nat)
    requires Row(h, row) && Is(h, x, Live) && h.blocks[x].len > 64 + HEADER
    requires forall m: nat {:trigger row[m]} :: m < |row| && row[m] in h.blocks ==>
      End(h, row[m]) != x && End(h, x) != row[m]
    ensures Row(Freed(h, x), [x] + row)
    ensures Freed(h, x).blocks == h.blocks[x := Block(h.blocks[x].len, Free(QUICK_LISTS))]
  {
    FreedKeeps(h, x);
    var g := Mark(h, x, Held);
    forall m: nat ensures !LowerAt(g, x, m) && !UpperAt(g, x, m) {
      if m < |row| {
        OnList(g, 0, m);
        assert row[m] in h.blocks;
      }
    }
    CoalescedBlocks(g, x);
  }

  // Freeing a large block whose upper neighbour is in front of its lower one.
  lemma FreeBetween(h: Heap, lo: nat, x: nat, hi: nat)
    requires Row(h, [hi, lo]) && Is(h, x, Live) && h.blocks[x].len > 64 + HEADER
    requires lo in h.blocks && End(h, lo) == x && End(h, x) == hi
    ensures Is(Freed(h, x), lo, Lost)
  {
    FreedKeeps(h, x);
    var g := Mark(h, x, Held);
    OnList(g, 0, 0);
    OnList(g, 0, 1);
    assert BlockOk(g, x);
    assert UpperAt(g, x, 0) && LowerAt(g, x, 1);
    UpperIndexIs(g, 0, x, 0);
    LowerIndexIs(g, 0, x, 1);
    LostExactly(g, x, lo);
  }

  lemma Sizes()
    ensures PageAlign(1008) == PAGE_SIZE && Align(1000) == 1000 && Align(1064) == 1064
  {
  }

  // Four live blocks fill the page from x on.
  ghost predicate Filled(h: Heap, x: nat) {
    && Row(h, [])
    && h.blocks == map[x := Block(1008, Live), x + 1008 := Block(1008, Live),
                       x + 2016 := Block(1008, Live), x + 3024 := Block(1072, Live)]
  }

  // Three blocks of 1000 bytes, and one of all that is left.
  method FillPage(heap: Allocator)
    requires heap.Valid() && heap.Mapped() && heap.Room(1000) && heap.end == heap.start
    requires heap.blocks == map[] && heap.lists == [[], [], [], [], []]
    modifies heap, heap.freelist
    ensures heap.Valid() && heap.Mapped() && heap.end == old(heap.end) + PAGE_SIZE && Filled(heap.H(), heap.start)
  {
    hide Fits, Mul4, PageAlign, Align, LiveKept, Given, TakenFirst, NothingFits;
    Sizes();
    ghost var x, h := heap.start, heap.H();
    EmptyFitsNothing(h, 1000);
    var a := heap.Kmalloc(1000);
    FirstRefresh(h, 1000);
    TakeOnly(Refreshed(h, 1000), x, 1000, heap.H(), a);
    h := heap.H();
    OnlyFits(h, x + 1008, 1000);
    var b := heap.Kmalloc(1000);
    TakeOnly(h, x + 1008, 1000, heap.H(), b);
    h := heap.H();
    OnlyFits(h, x + 2016, 1000);
    var c := heap.Kmalloc(1000);
    TakeOnly(h, x + 2016, 1000, heap.H(), c);
    h := heap.H();
    OnlyFits(h, x + 3024, 1064);
    var d := heap.Kmalloc(1064);
    TakeOnly(h, x + 3024, 1064, heap.H(), d);
  }

  lemma EmptyFitsNothing(h: Heap, size: nat)
    requires Row(h, [])
    ensures !SomethingFits(h, QUICK_LISTS, size)
  {
  }

  // Four blocks fill a page; freeing the first, the third and then the second
  // loses the first.
  method LoseABlock(start: nat) returns (heap: Allocator, lost: nat)
    requires 0 < start && Mul4(start) && start + 3 * PAGE_SIZE <= WORD
    ensures heap.Valid() && fresh(heap) && heap.end == start + PAGE_SIZE
    ensures Is(heap.H(), lost, Lost)
  {
    hide Fits, Mul4, PageAlign, LiveKept, Placed, Freed;
    Sizes();
    heap := new Allocator(start);
    FillPage(heap);
    lost := start;
    ghost var h := heap.H();
    heap.Kfree(start + HEADER);
    FreeAlone(h, [], start);
    h := heap.H();
    heap.Kfree(start + 2016 + HEADER);
    FreeAlone(h, [start], start + 2016);
    h := heap.H();
    heap.Kfree(start + 1008 + HEADER);
    FreeBetween(h, start, start + 1008, start + 2016);
  }
}
