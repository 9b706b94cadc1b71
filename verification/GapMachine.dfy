// A machine whose boot tables leave a gap: the counter promises frames that the
// list does not have.
module GapMachine {
  import opened Descriptors
  import opened Ownership
  import opened Boot
  import opened Mmu040

  // A root table, a pointer table and a page table in the first frames of DRAM,
  // and one page eight frames above its start.
  const ROOT_FRAME: PageNumber := 0x80000
  const POINTER_FRAME: PageNumber := 0x80001
  const TABLE_FRAME: PageNumber := 0x80002
  const PAGE_FRAME: PageNumber := 0x80008

  // The root entry used is one the supervisor owns.
  const ROOT_INDEX := 96

  function Upper(f: PageNumber): Word { Word(f, ZERO.(t := UPPER_RESIDENT)) }

  function Lower(f: PageNumber): Word { Word(f, ZERO.(t := PAGE_RESIDENT)) }

  function Contents(f: nat): Frame {
    if f == ROOT_FRAME then ZeroFrame()[ROOT_INDEX := Upper(POINTER_FRAME)]
    else if f == POINTER_FRAME then ZeroFrame()[0 := Upper(TABLE_FRAME)]
    else if f == TABLE_FRAME then ZeroFrame()[0 := Lower(PAGE_FRAME)]
    else ZeroFrame()
  }

  function BootMemory(): Memory {
    map f: nat | FIRST_FRAME <= f < LIMIT_FRAME :: Contents(f)
  }

  function BootOwners(): map<nat, Role> {
    map[ROOT_FRAME := Node(0, ROOT_FRAME, ROOT_FRAME, 0), POINTER_FRAME := Node(1, ROOT_FRAME, ROOT_FRAME, ROOT_INDEX),
        TABLE_FRAME := Node(2, ROOT_FRAME, POINTER_FRAME, 0), PAGE_FRAME := Node(3, ROOT_FRAME, TABLE_FRAME, 0)]
  }

  ghost function BootState(): State {
    State(BootMemory(), BootOwners(), [], {}, ROOT_FRAME)
  }

  lemma BootIsWellFormed()
    ensures Wf(BootState())
    ensures forall f: nat {:trigger Managed(BootState(), f)} :: FIRST_FRAME <= f < LIMIT_FRAME ==>
      Managed(BootState(), f)
  {
    var s := BootState();
    forall f | f in s.own ensures Managed(s, f) {}
    forall q: nat, x: nat ensures Down(s, q, x) {}
    forall f | f in s.own ensures Up(s, f) {}
  }

  // ---- What the scan meets ----

  lemma {:induction false} SkipPages(mem: Memory, ph: Word, k: nat, n: nat)
    requires k <= n <= PAGE_ENTRIES && forall x: nat {:trigger Entry(mem, ph, x)} :: k <= x < n ==>
      !PageResident(Entry(mem, ph, x))
    ensures PagesMet(mem, ph, k) == PagesMet(mem, ph, n)
    decreases n - k
  {
    hide PageResident;
    if k < n {
      assert !PageResident(Entry(mem, ph, k));
      SkipPages(mem, ph, k + 1, n);
    }
  }

  lemma {:induction false} SkipTables(mem: Memory, ph: Word, k: nat, n: nat)
    requires k <= n <= POINTER_ENTRIES && forall x: nat {:trigger Entry(mem, ph, x)} :: k <= x < n ==>
      !UpperResident(Entry(mem, ph, x))
    ensures TablesMet(mem, ph, k) == TablesMet(mem, ph, n)
    decreases n - k
  {
    hide PagesMet, UpperResident, PointerTableAddress;
    if k < n {
      assert !UpperResident(Entry(mem, ph, k));
      SkipTables(mem, ph, k + 1, n);
    }
  }

  lemma {:induction false} SkipRoots(mem: Memory, r: nat, k: nat, n: nat)
    requires k <= n <= ROOT_ENTRIES && forall x: nat {:trigger Read(mem, r, x)} :: k <= x < n ==>
      !UpperResident(Read(mem, r, x))
    ensures RootsMet(mem, r, k) == RootsMet(mem, r, n)
    decreases n - k
  {
    hide TablesMet, UpperResident, RootTableAddress;
    if k < n {
      assert !UpperResident(Read(mem, r, k));
      SkipRoots(mem, r, k + 1, n);
    }
  }

  lemma PageTableMeets()
    ensures PagesMet(BootMemory(), AddressOf(TABLE_FRAME), 0) == [PAGE_FRAME]
  {
    var mem, ph := BootMemory(), AddressOf(TABLE_FRAME);
    assert Entry(mem, ph, 0) == Lower(PAGE_FRAME);
    SkipPages(mem, ph, 1, PAGE_ENTRIES);
    assert PagesMet(mem, ph, 0) == PageAt(mem, ph, 0) + PagesMet(mem, ph, 1);
  }

  lemma PointerTableMeets()
    ensures TablesMet(BootMemory(), AddressOf(POINTER_FRAME), 0) == [PAGE_FRAME]
  {
    hide PagesMet;
    var mem, ph := BootMemory(), AddressOf(POINTER_FRAME);
    PageTableMeets();
    assert Entry(mem, ph, 0) == Upper(TABLE_FRAME) && PointerTableAddress(Upper(TABLE_FRAME)) == AddressOf(TABLE_FRAME);
    SkipTables(mem, ph, 1, POINTER_ENTRIES);
    assert TablesMet(mem, ph, 0) == TableAt(mem, ph, 0) + TablesMet(mem, ph, 1);
  }

  // The boot tables map just that page.
  lemma ScanMeets()
    ensures RootsMet(BootMemory(), ROOT_FRAME, 0) == [PAGE_FRAME]
  {
    hide TablesMet;
    var mem := BootMemory();
    PointerTableMeets();
    assert Read(mem, ROOT_FRAME, ROOT_INDEX) == Upper(POINTER_FRAME);
    assert RootTableAddress(Upper(POINTER_FRAME)) == AddressOf(POINTER_FRAME);
    SkipRoots(mem, ROOT_FRAME, 0, ROOT_INDEX);
    SkipRoots(mem, ROOT_FRAME, ROOT_INDEX + 1, ROOT_ENTRIES);
    assert RootsMet(mem, ROOT_FRAME, ROOT_INDEX) ==
      RootAt(mem, ROOT_FRAME, ROOT_INDEX) + RootsMet(mem, ROOT_FRAME, ROOT_INDEX + 1);
  }

  // After start-up the counter exceeds the list by the eight frames of the gap.
  method StartWithGap() returns (mmu: Mmu)
    ensures fresh(mmu) && mmu.freeFrames == |mmu.free| + 8 && !mmu.Valid()
  {
    hide Wf, RootsMet;
    BootIsWellFormed();
    ScanMeets();
    GapOvercounts();
    mmu := new Mmu(BootMemory(), AddressOf(ROOT_FRAME), NULL, BootOwners());
    mmu.Init();
  }
}
