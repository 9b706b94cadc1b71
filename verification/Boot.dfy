// The frames that the boot loader's translation tables keep, and the free list
// built above them.
module Boot {
  import opened Descriptors
  import opened Ownership

  const TOTAL_FRAMES := 16384

  // Entry x of the table at physical address ph.
  function Entry(mem: Memory, ph: Word, x: nat): Word {
    Read(mem, ph.page, Offset(ph) / 4 + x)
  }

  // The pages that the scan meets in entry k of a page table, entry j of a
  // pointer table, entry i of the root table, and from those entries on.
  function PageAt(mem: Memory, ph: Word, k: nat): seq<PageNumber> {
    if PageResident(Entry(mem, ph, k)) then [Entry(mem, ph, k).page] else []
  }

  function PagesMet(mem: Memory, ph: Word, k: nat): seq<PageNumber>
    decreases PAGE_ENTRIES - k
  {
    if k >= PAGE_ENTRIES then [] else PageAt(mem, ph, k) + PagesMet(mem, ph, k + 1)
  }

  function TableAt(mem: Memory, ph: Word, j: nat): seq<PageNumber> {
    if UpperResident(Entry(mem, ph, j)) then PagesMet(mem, PointerTableAddress(Entry(mem, ph, j)), 0) else []
  }

  function TablesMet(mem: Memory, ph: Word, j: nat): seq<PageNumber>
    decreases POINTER_ENTRIES - j
  {
    if j >= POINTER_ENTRIES then [] else TableAt(mem, ph, j) + TablesMet(mem, ph, j + 1)
  }

  function RootAt(mem: Memory, r: nat, i: nat): seq<PageNumber> {
    if UpperResident(Read(mem, r, i)) then TablesMet(mem, RootTableAddress(Read(mem, r, i)), 0) else []
  }

  function RootsMet(mem: Memory, r: nat, i: nat): seq<PageNumber>
    decreases ROOT_ENTRIES - i
  {
    if i >= ROOT_ENTRIES then [] else RootAt(mem, r, i) + RootsMet(mem, r, i + 1)
  }

  // The next frame, as the 32-bit address wraps.
  function Bump(p: PageNumber): (b: PageNumber)
    ensures b == (p + 1) % 0x100000
  {
    if p == 0xFFFFF then 0 else p + 1
  }

  // The scan's candidate for the first free frame: past every page met at or
  // above the candidate so far.
  function FirstFree(first: PageNumber, pages: seq<PageNumber>): PageNumber
    decreases |pages|
  {
    if pages == [] then first
    else FirstFree(if pages[0] >= first then Bump(pages[0]) else first, pages[1..])
  }

  // How often the scan lowers the free counter.
  function Hits(first: PageNumber, pages: seq<PageNumber>): nat
    decreases |pages|
  {
    if pages == [] then 0
    else if pages[0] >= first then 1 + Hits(Bump(pages[0]), pages[1..])
    else Hits(first, pages[1..])
  }

  // Each page at or above the candidate is the candidate itself.
  predicate Gapless(first: PageNumber, pages: seq<PageNumber>)
    decreases |pages|
  {
    if pages == [] then true
    else if pages[0] >= first then pages[0] == first && Gapless(Bump(first), pages[1..])
    else Gapless(first, pages[1..])
  }

  lemma {:induction false} FirstFreeOfConcat(first: PageNumber, a: seq<PageNumber>, b: seq<PageNumber>)
    ensures FirstFree(first, a + b) == FirstFree(FirstFree(first, a), b)
    ensures Hits(first, a + b) == Hits(first, a) + Hits(FirstFree(first, a), b)
    decreases |a|
  {
    if a == [] {
      assert a + b == b;
    } else {
      assert (a + b)[1..] == a[1..] + b;
      FirstFreeOfConcat(if a[0] >= first then Bump(a[0]) else first, a[1..], b);
    }
  }

  lemma NothingMet(first: PageNumber)
    ensures FirstFree(first, []) == first && Hits(first, []) == 0
  {
  }

  lemma OneMet(first: PageNumber, p: PageNumber)
    ensures FirstFree(first, [p]) == if p >= first then Bump(p) else first
    ensures Hits(first, [p]) == if p >= first then 1 else 0
  {
    assert [p][1..] == [];
  }

  // One entry of a page table scanned, the rest to go.
  lemma PageScanned(mem: Memory, ph: Word, k: nat, first: PageNumber)
    requires k < PAGE_ENTRIES
    ensures var w := Entry(mem, ph, k);
      var hit := PageResident(w) && w.page >= first;
      var next := if hit then Bump(w.page) else first;
      && FirstFree(first, PagesMet(mem, ph, k)) == FirstFree(next, PagesMet(mem, ph, k + 1))
      && Hits(first, PagesMet(mem, ph, k)) == (if hit then 1 else 0) + Hits(next, PagesMet(mem, ph, k + 1))
  {
    hide PageResident, Entry;
    var w := Entry(mem, ph, k);
    FirstFreeOfConcat(first, PageAt(mem, ph, k), PagesMet(mem, ph, k + 1));
    NothingMet(first);
    OneMet(first, w.page);
  }

  // One entry of a pointer table scanned, the rest to go.
  lemma TableScanned(mem: Memory, ph: Word, j: nat, first: PageNumber)
    requires j < POINTER_ENTRIES
    ensures var w := Entry(mem, ph, j);
      var next := if UpperResident(w) then FirstFree(first, PagesMet(mem, PointerTableAddress(w), 0)) else first;
      && FirstFree(first, TablesMet(mem, ph, j)) == FirstFree(next, TablesMet(mem, ph, j + 1))
      && Hits(first, TablesMet(mem, ph, j)) ==
         (if UpperResident(w) then Hits(first, PagesMet(mem, PointerTableAddress(w), 0)) else 0)
         + Hits(next, TablesMet(mem, ph, j + 1))
  {
    hide PagesMet, UpperResident, PointerTableAddress, Entry;
    FirstFreeOfConcat(first, TableAt(mem, ph, j), TablesMet(mem, ph, j + 1));
    NothingMet(first);
  }

  // One entry of the root table scanned, the rest to go.
  lemma RootScanned(mem: Memory, r: nat, i: nat, first: PageNumber)
    requires i < ROOT_ENTRIES
    ensures var w := Read(mem, r, i);
      var next := if UpperResident(w) then FirstFree(first, TablesMet(mem, RootTableAddress(w), 0)) else first;
      && FirstFree(first, RootsMet(mem, r, i)) == FirstFree(next, RootsMet(mem, r, i + 1))
      && Hits(first, RootsMet(mem, r, i)) ==
         (if UpperResident(w) then Hits(first, TablesMet(mem, RootTableAddress(w), 0)) else 0)
         + Hits(next, RootsMet(mem, r, i + 1))
  {
    hide TablesMet, UpperResident, RootTableAddress, Read;
    FirstFreeOfConcat(first, RootAt(mem, r, i), RootsMet(mem, r, i + 1));
    NothingMet(first);
  }

  // Past the last entry nothing is met.
  lemma ScanEnds(mem: Memory, ph: Word, r: nat, first: PageNumber)
    ensures FirstFree(first, PagesMet(mem, ph, PAGE_ENTRIES)) == first
    ensures Hits(first, PagesMet(mem, ph, PAGE_ENTRIES)) == 0
    ensures FirstFree(first, TablesMet(mem, ph, POINTER_ENTRIES)) == first
    ensures Hits(first, TablesMet(mem, ph, POINTER_ENTRIES)) == 0
    ensures FirstFree(first, RootsMet(mem, r, ROOT_ENTRIES)) == first
    ensures Hits(first, RootsMet(mem, r, ROOT_ENTRIES)) == 0
  {
  }

  // The last page number does not occur, so the candidate never wraps.
  predicate NoWrap(pages: seq<PageNumber>) {
    forall n | 0 <= n < |pages| :: pages[n] != 0xFFFFF
  }

  lemma {:induction false} AboveEveryPage(first: PageNumber, pages: seq<PageNumber>)
    requires NoWrap(pages)
    ensures first <= FirstFree(first, pages)
    ensures forall n | 0 <= n < |pages| :: pages[n] < FirstFree(first, pages)
    decreases |pages|
  {
    if pages != [] {
      var next: PageNumber := if pages[0] >= first then pages[0] + 1 else first;
      AboveEveryPage(next, pages[1..]);
      forall n | 0 <= n < |pages| ensures pages[n] < FirstFree(first, pages) {
        if n > 0 { assert pages[n] == pages[1..][n - 1]; }
      }
    }
  }

  // The counter drops by the number of frames skipped exactly when there is no
  // gap, and by less otherwise.
  lemma {:induction false} CounterIsExactWithoutGaps(first: PageNumber, pages: seq<PageNumber>)
    requires NoWrap(pages)
    ensures Hits(first, pages) <= FirstFree(first, pages) - first
    ensures Hits(first, pages) == FirstFree(first, pages) - first <==> Gapless(first, pages)
    decreases |pages|
  {
    if pages != [] {
      var next: PageNumber := if pages[0] >= first then pages[0] + 1 else first;
      CounterIsExactWithoutGaps(next, pages[1..]);
    }
  }

  // A single page mapped eight frames above the start of DRAM leaves eight
  // frames out of the list that the counter still promises.
  lemma GapOvercounts()
    ensures FirstFree(FIRST_FRAME, [0x80008]) == 0x80009 && Hits(FIRST_FRAME, [0x80008]) == 1
    ensures TOTAL_FRAMES - Hits(FIRST_FRAME, [0x80008]) == LIMIT_FRAME - FirstFree(FIRST_FRAME, [0x80008]) + 8
  {
    var pages: seq<PageNumber> := [0x80008];
    assert pages[1..] == [];
  }

  // ---- Building the list ----

  // Push a frame that nobody owns yet.
  ghost function Seed(st: State, f: nat): State {
    State(Write(st.mem, f, 0, Link(st.free)), st.own[f := Free(|st.free|)], st.free + [f], st.dead, st.srp)
  }

  lemma SeedKeepsWf(st: State, f: nat)
    requires Wf(st) && f !in st.own && Managed(st, f)
    ensures Wf(Seed(st, f))
  {
    var s := Seed(st, f);
    forall g | g in s.own ensures Managed(s, g) { if g != f { assert Managed(st, g); } }
    forall g | g in s.own ensures Up(s, g) { if g != f { assert Up(st, g); } }
    forall p: nat, y: nat ensures Down(s, p, y) { assert Down(st, p, y); }
    forall n | 0 <= n < |s.free| ensures Linked(s, n) { if n < |st.free| { assert Linked(st, n); } }
  }

  // Frames first..last-1, lowest at the bottom of the stack.
  function Range(first: nat, last: nat): (s: seq<nat>)
    ensures |s| == if first <= last then last - first else 0
  {
    if first < last then seq(last - first, n requires 0 <= n => first + n) else []
  }
}
