// How the steps of the manager show in the address translation.
module Mapping {
  import opened Descriptors
  import opened Ownership
  import opened Translation
  import opened Growth

  // ---- Walks ----

  // The frames a successful walk passes through belong to its entries.
  lemma WalkOwned(st: State, r: nat, i: nat, j: nat, k: nat)
    requires Wf(st) && st.dead == {} && IsRoot(st, r) && Owns(st, r, i)
    requires i < ROOT_ENTRIES && j < POINTER_ENTRIES && k < PAGE_ENTRIES
    ensures UpperResident(Read(st.mem, r, i)) ==>
      var p := Child(st.mem, r, i);
      && p in st.own && st.own[p] == Node(POINTERS, r, r, i)
      && (UpperResident(Read(st.mem, p, j)) ==>
        var t := Child(st.mem, p, j);
        && t in st.own && st.own[t] == Node(TABLE, r, p, j)
        && (PageResident(Read(st.mem, t, k)) ==>
          var f := Child(st.mem, t, k);
          f in st.own && st.own[f] == Node(PAGE, r, t, k)))
  {
    if UpperResident(Read(st.mem, r, i)) {
      EntryLeads(st, r, i);
      var p := Child(st.mem, r, i);
      if UpperResident(Read(st.mem, p, j)) {
        EntryLeads(st, p, j);
        var t := Child(st.mem, p, j);
        if PageResident(Read(st.mem, t, k)) {
          EntryLeads(st, t, k);
        }
      }
    }
  }

  // Tables of s0 read the same in s1, except perhaps entry x of table q.
  ghost predicate SameEntry(s0: State, s1: State, q: nat, x: nat, c: nat, y: nat) {
    IsTable(s0, c) && (c != q || y != x) ==> Read(s1.mem, c, y) == Read(s0.mem, c, y)
  }

  ghost predicate SameTables(s0: State, s1: State, q: nat, x: nat) {
    forall c: nat, y: nat {:trigger SameEntry(s0, s1, q, x, c, y)} :: SameEntry(s0, s1, q, x, c, y)
  }

  // Entry x of page table q is where indices i, j, k of root r lead.
  ghost predicate At(st: State, q: nat, x: nat, r: nat, i: nat, j: nat, k: nat)
    requires q in st.own && st.own[q].Node? && st.own[q].parent in st.own && st.own[st.own[q].parent].Node?
  {
    r == st.own[q].root && i == st.own[st.own[q].parent].index && j == st.own[q].index && k == x
  }

  lemma WalkElsewhere(s0: State, s1: State, q: nat, x: nat, r: nat, i: nat, j: nat, k: nat)
    requires Wf(s0) && s0.dead == {} && IsRoot(s0, r) && Owns(s0, r, i)
    requires i < ROOT_ENTRIES && j < POINTER_ENTRIES && k < PAGE_ENTRIES
    requires SameTables(s0, s1, q, x) && IsTable(s0, q) && s0.own[q].level == TABLE
    requires s0.own[q].parent in s0.own && s0.own[s0.own[q].parent].Node? && !At(s0, q, x, r, i, j, k)
    ensures Walk(s1.mem, r, i, j, k) == Walk(s0.mem, r, i, j, k)
  {
    WalkOwned(s0, r, i, j, k);
    assert SameEntry(s0, s1, q, x, r, i);
    var p := Child(s0.mem, r, i);
    assert SameEntry(s0, s1, q, x, p, j);
    var t := Child(s0.mem, p, j);
    assert SameEntry(s0, s1, q, x, t, k);
  }

  // An address whose walk goes through an entry that was not resident, and now
  // leads to an empty table, still has no translation.
  lemma WalkThroughNewTable(s0: State, s1: State, q: nat, x: nat, f: nat, r: nat, i: nat, j: nat, k: nat)
    requires Wf(s0) && s0.dead == {} && IsRoot(s0, r) && Owns(s0, r, i)
    requires i < ROOT_ENTRIES && j < POINTER_ENTRIES && k < PAGE_ENTRIES
    requires IsTable(s0, q) && s0.own[q].level < TABLE && !UpperResident(Read(s0.mem, q, x))
    requires TableAdded(s0, s1, q, x, f)
    ensures Walk(s1.mem, r, i, j, k) == Walk(s0.mem, r, i, j, k)
  {
    WalkOwned(s0, r, i, j, k);
    AddedSameTables(s0, s1, q, x, f);
    var p := Child(s0.mem, r, i);
    assert SameEntry(s0, s1, q, x, r, i) && SameEntry(s0, s1, q, x, p, j);
    assert SameEntry(s0, s1, q, x, Child(s0.mem, p, j), k);
    assert Read(s1.mem, f, j) == NULL && Read(s1.mem, f, k) == NULL;
  }

  lemma AddedSameTables(s0: State, s1: State, q: nat, x: nat, f: nat)
    requires TableAdded(s0, s1, q, x, f)
    ensures SameTables(s0, s1, q, x)
  {
    forall c: nat, y: nat ensures SameEntry(s0, s1, q, x, c, y) {
      if c in s0.own && c != q { assert KeptOrTaken(s0, s1, q, c); }
      assert Read(s1.mem, q, y) == Read(s0.mem, q, y) || y == x;
    }
  }

  // ---- What stays ----

  // Address (i, j, k) of root r keeps its translation and its page contents.
  ghost predicate Unmoved(s0: State, s: State, r: nat, i: nat, j: nat, k: nat) {
    && Walk(s.mem, r, i, j, k) == Walk(s0.mem, r, i, j, k)
    && (Walk(s0.mem, r, i, j, k).Some? ==>
         var f := Walk(s0.mem, r, i, j, k).value.page;
         f in s0.mem && f in s.mem && s.mem[f] == s0.mem[f])
  }

  ghost predicate Indices(st: State, r: nat, i: nat, j: nat, k: nat) {
    IsRoot(st, r) && Owns(st, r, i) && i < ROOT_ENTRIES && j < POINTER_ENTRIES && k < PAGE_ENTRIES
  }

  // Either nothing happened, or a fresh table was hung in entry x of q.
  ghost predicate Descended(s0: State, s: State, q: nat, x: nat) {
    && Wf(s) && s0.dead == s.dead == {}
    && Live(s, q, x)
    && (s == s0
        || (IsTable(s0, q) && s0.own[q].level < TABLE && !UpperResident(Read(s0.mem, q, x))
            && TableAdded(s0, s, q, x, Child(s.mem, q, x))))
  }

  lemma DescentMovesNothing(s0: State, s1: State, q: nat, x: nat, r: nat, i: nat, j: nat, k: nat)
    requires Wf(s0) && Descended(s0, s1, q, x) && Indices(s0, r, i, j, k)
    ensures Unmoved(s0, s1, r, i, j, k) && Indices(s1, r, i, j, k)
  {
    WalkOwned(s0, r, i, j, k);
    if s1 != s0 {
      WalkThroughNewTable(s0, s1, q, x, Child(s1.mem, q, x), r, i, j, k);
      assert KeptOrTaken(s0, s1, q, r);
    }
    if Walk(s0.mem, r, i, j, k).Some? {
      var f := Walk(s0.mem, r, i, j, k).value.page;
      assert Managed(s0, f);
      if s1 != s0 { assert KeptOrTaken(s0, s1, q, f); }
    }
  }

  // ---- Mapping one page ----

  ghost predicate SameBut(s0: State, s: State, t: nat, f: nat, c: nat)
    requires c in s0.own && c in s.own
  {
    c != f ==> s.own[c] == s0.own[c] && (c != t ==> c in s.mem && c in s0.mem && s.mem[c] == s0.mem[c])
  }

  // Entry k of page table t now names the zeroed frame f.
  ghost predicate PageMapped(s0: State, s: State, t: nat, k: nat, w: Word) {
    var f := w.page;
    && Wf(s) && s.dead == {} && s.srp == s0.srp
    && s.own.Keys == s0.own.Keys && s.mem.Keys == s0.mem.Keys
    && IsTable(s0, t) && s0.own[t].level == TABLE
    && f in s.own && f != t && s.own[f] == Node(PAGE, s0.own[t].root, t, k)
    && (s0.own[f].Free? || s0.own[f] == s.own[f])
    && f in s.mem && s.mem[f] == ZeroFrame()
    && Read(s.mem, t, k) == w && PageResident(w)
    && (forall y: nat {:trigger Read(s.mem, t, y)} :: y != k ==> Read(s.mem, t, y) == Read(s0.mem, t, y))
    && (forall c: nat {:trigger SameBut(s0, s, t, f, c)} :: c in s0.own ==> SameBut(s0, s, t, f, c))
  }

  lemma MapFresh(st: State, t: nat, k: nat, w: Word)
    requires Wf(st) && st.dead == {} && |st.free| > 0 && k < PAGE_ENTRIES
    requires IsTable(st, t) && st.own[t].level == TABLE && !PageResident(Read(st.mem, t, k))
    requires PageResident(w) && w.page == st.free[|st.free| - 1]
    ensures w.page != t
    ensures PageMapped(st, Hang(Take(st), w.page, t, k, w), t, k, w)
  {
    var f := w.page;
    assert Up(st, t);
    assert Linked(st, |st.free| - 1);
    assert Managed(st, t) && Managed(st, f);
    GrownByHang(st, f, t, k, w);
    HangKeepsWf(Take(st), f, t, k, w);
    var s := Hang(Take(st), f, t, k, w);
    forall c | c in st.own ensures SameBut(st, s, t, f, c) { assert Managed(st, c); }
  }

  // A page that was mapped already is freed first.
  lemma FreeMapped(st: State, t: nat, k: nat, v: Word)
    requires Wf(st) && st.dead == {} && k < PAGE_ENTRIES
    requires IsTable(st, t) && st.own[t].level == TABLE && PageResident(Read(st.mem, t, k))
    requires PageResident(v) && v.page == Child(st.mem, t, k)
    ensures Live(st, t, k) && Wf(Touch(st, t, k, v)) && t in st.mem
    ensures v.page in st.own && st.own[v.page] == Node(PAGE, st.own[t].root, t, k)
    ensures v.page != st.srp && v.page != t && Managed(st, v.page)
    ensures Childless(Touch(st, t, k, v), v.page) && Wf(Give(Touch(st, t, k, v), v.page))
  {
    assert Up(st, t);
    assert Managed(st, t);
    EntryLeads(st, t, k);
    assert Managed(st, v.page);
    TouchKeepsWf(st, t, k, v);
    GiveKeepsWf(Touch(st, t, k, v), v.page);
  }

  // The free list being a stack, the same frame is then taken again at once.
  lemma MapAgain(st: State, t: nat, k: nat, v: Word, w: Word)
    requires Wf(st) && st.dead == {} && k < PAGE_ENTRIES
    requires IsTable(st, t) && st.own[t].level == TABLE && PageResident(Read(st.mem, t, k))
    requires PageResident(v) && v.page == Child(st.mem, t, k) && PageResident(w) && w.page == v.page
    ensures v.page in st.own && v.page != t
    ensures PageMapped(st, Hang(Take(Give(Touch(st, t, k, v), v.page)), w.page, t, k, w), t, k, w)
  {
    var f := v.page;
    FreeMapped(st, t, k, v);
    var s2 := Give(Touch(st, t, k, v), f);
    TakeKeepsWf(s2);
    HangKeepsWf(Take(s2), f, t, k, w);
    var s := Hang(Take(s2), f, t, k, w);
    assert st.mem[t][k := v][k := w] == st.mem[t][k := w];
    forall c | c in st.own ensures SameBut(st, s, t, f, c) { assert Managed(st, c); }
  }

  lemma MappedSameTables(s0: State, s1: State, t: nat, k: nat, w: Word)
    requires PageMapped(s0, s1, t, k, w)
    ensures SameTables(s0, s1, t, k)
  {
    forall c: nat, y: nat ensures SameEntry(s0, s1, t, k, c, y) {
      if c in s0.own { assert SameBut(s0, s1, t, w.page, c); }
      assert Read(s1.mem, t, y) == Read(s0.mem, t, y) || y == k;
    }
  }

  lemma MappingMovesNothingElse(s0: State, s1: State, t: nat, x: nat, w: Word, r: nat, i: nat, j: nat, k: nat)
    requires Wf(s0) && s0.dead == {} && x < PAGE_ENTRIES && PageMapped(s0, s1, t, x, w) && Indices(s0, r, i, j, k)
    requires s0.own[t].parent in s0.own && s0.own[s0.own[t].parent].Node? && !At(s0, t, x, r, i, j, k)
    ensures Unmoved(s0, s1, r, i, j, k)
  {
    WalkOwned(s0, r, i, j, k);
    MappedSameTables(s0, s1, t, x, w);
    WalkElsewhere(s0, s1, t, x, r, i, j, k);
    if Walk(s0.mem, r, i, j, k).Some? {
      var f := Walk(s0.mem, r, i, j, k).value.page;
      assert Managed(s0, f);
      assert SameBut(s0, s1, t, w.page, f);
    }
  }

  // ---- alloc_at as an update of the translation ----

  ghost predicate UnmovedPage(s0: State, s: State, r: nat, page: nat) {
    Unmoved(s0, s, r, RootIndex(page), PointerIndex(page), PageIndex(page))
  }

  // Every page of every address space but `page` of r keeps its translation
  // and contents.
  ghost predicate MovesOnly(s0: State, s: State, r: nat, page: nat) {
    forall r2: nat, v: nat {:trigger UnmovedPage(s0, s, r2, v)} ::
      IsRoot(s0, r2) && Owns(s0, r2, RootIndex(v)) && v < VIRTUAL_PAGES && (r2 != r || v != page) ==>
        UnmovedPage(s0, s, r2, v)
  }

  lemma IndicesDeterminePage(v: nat, w: nat)
    requires v < VIRTUAL_PAGES && w < VIRTUAL_PAGES
    requires RootIndex(v) == RootIndex(w) && PointerIndex(v) == PointerIndex(w) && PageIndex(v) == PageIndex(w)
    ensures v == w
  {
    assert v / 8192 == RootIndex(v) && w / 8192 == RootIndex(w);
    assert v / 64 == RootIndex(v) * 128 + PointerIndex(v);
    assert w / 64 == RootIndex(w) * 128 + PointerIndex(w);
  }

  // Frames that mapping (i, j, k) of root r takes off the stack's counter.
  function FramesNeeded(mem: Memory, r: nat, i: nat, j: nat): nat {
    if !UpperResident(Read(mem, r, i)) then 3
    else if !UpperResident(Read(mem, Child(mem, r, i), j)) then 2
    else 1
  }

  // The descriptor that the field stores of alloc_at leave.
  function MappedEntry(w: Word, frame: Word, supervisor: bool, writeProtected: bool): Word {
    var d := SetCacheMode(SetSupervisor(SetPageAddress(w, frame), supervisor), COPY_BACK);
    SetType(SetWriteProtected(d, writeProtected), PAGE_RESIDENT)
  }

  lemma MappedEntryIsResident(w: Word, frame: Word, supervisor: bool, writeProtected: bool)
    ensures var d := MappedEntry(w, frame, supervisor, writeProtected); PageResident(d) && d.page == frame.page
    ensures MappedEntry(SetWriteProtected(w, writeProtected), frame, supervisor, writeProtected) ==
      MappedEntry(w, frame, supervisor, writeProtected)
    ensures PageResident(SetWriteProtected(w, writeProtected)) <==> PageResident(w)
  {
  }

  // Down to the pointer table and the page table of indices i, j.
  ghost predicate WentDown(s0: State, s1: State, s2: State, r: nat, i: nat, j: nat) {
    && Descended(s0, s1, r, i)
    && var p := Child(s1.mem, r, i);
    && p in s1.own && s1.own[p] == Node(POINTERS, r, r, i)
    && Descended(s1, s2, p, j)
    && var t := Child(s2.mem, p, j);
    && t in s2.own && s2.own[t] == Node(TABLE, r, p, j)
  }

  // The three steps of alloc_at: down to the pointer table, down to the page
  // table, map the page.
  ghost predicate AllocSteps(s0: State, s1: State, s2: State, s3: State, r: nat, page: nat, frame: Word,
      supervisor: bool, writeProtected: bool) {
    && Wf(s0) && page < VIRTUAL_PAGES && Indices(s0, r, RootIndex(page), PointerIndex(page), PageIndex(page))
    && WentDown(s0, s1, s2, r, RootIndex(page), PointerIndex(page))
    && var t := Child(s2.mem, Child(s1.mem, r, RootIndex(page)), PointerIndex(page));
    && PageMapped(s2, s3, t, PageIndex(page),
                  MappedEntry(Read(s2.mem, t, PageIndex(page)), frame, supervisor, writeProtected))
    && (PageResident(Read(s2.mem, t, PageIndex(page))) ==> frame.page == Child(s2.mem, t, PageIndex(page)))
  }

  lemma AllocAtMovesOnly(s0: State, s1: State, s2: State, s3: State, r: nat, page: nat, frame: Word, supervisor: bool,
      writeProtected: bool)
    requires AllocSteps(s0, s1, s2, s3, r, page, frame, supervisor, writeProtected)
    ensures MovesOnly(s0, s3, r, page)
  {
    var i, j, k := RootIndex(page), PointerIndex(page), PageIndex(page);
    var p := Child(s1.mem, r, i);
    var t := Child(s2.mem, p, j);
    if s2 != s1 { assert KeptOrTaken(s1, s2, p, p); }
    forall r2: nat, v: nat | IsRoot(s0, r2) && Owns(s0, r2, RootIndex(v)) && v < VIRTUAL_PAGES && (r2 != r || v != page)
      ensures UnmovedPage(s0, s3, r2, v)
    {
      var i2, j2, k2 := RootIndex(v), PointerIndex(v), PageIndex(v);
      if r2 == r && i2 == i && j2 == j && k2 == k { IndicesDeterminePage(v, page); }
      DescentMovesNothing(s0, s1, r, i, r2, i2, j2, k2);
      DescentMovesNothing(s1, s2, p, j, r2, i2, j2, k2);
      var d := MappedEntry(Read(s2.mem, t, k), frame, supervisor, writeProtected);
      MappingMovesNothingElse(s2, s3, t, k, d, r2, i2, j2, k2);
    }
  }

  // The state after the page that entry k of t names, if any, is freed.
  ghost function OldPageFreed(st: State, t: nat, k: nat, writeProtected: bool): State {
    var w := Read(st.mem, t, k);
    if PageResident(w) && w.page in st.own then Give(Touch(st, t, k, SetWriteProtected(w, writeProtected)), w.page)
    else st
  }

  lemma MapPageWorks(st: State, t: nat, k: nat, supervisor: bool, writeProtected: bool, frame: Word)
    requires Wf(st) && st.dead == {} && |st.free| > 0 && k < PAGE_ENTRIES
    requires IsTable(st, t) && st.own[t].level == TABLE
    requires var s1 := OldPageFreed(st, t, k, writeProtected); |s1.free| > 0 && frame.page == s1.free[|s1.free| - 1]
    ensures t in st.mem && frame.page != t
    ensures var s1 := OldPageFreed(st, t, k, writeProtected);
      var d := MappedEntry(Read(st.mem, t, k), frame, supervisor, writeProtected);
      && MappedEntry(Read(s1.mem, t, k), frame, supervisor, writeProtected) == d
      && IsTable(s1, t) && s1.own[t] == st.own[t]
      && PageMapped(st, Hang(Take(s1), frame.page, t, k, d), t, k, d)
      && (PageResident(Read(st.mem, t, k)) ==> frame.page == Child(st.mem, t, k))
  {
    var w := Read(st.mem, t, k);
    MappedEntryIsResident(w, frame, supervisor, writeProtected);
    assert Managed(st, t);
    if PageResident(w) {
      FreeMapped(st, t, k, SetWriteProtected(w, writeProtected));
      MapAgain(st, t, k, SetWriteProtected(w, writeProtected), MappedEntry(w, frame, supervisor, writeProtected));
    } else {
      MapFresh(st, t, k, MappedEntry(w, frame, supervisor, writeProtected));
    }
  }

  // What a caller of alloc_at asked for.
  predicate Requested(d: Word, supervisor: bool, writeProtected: bool) {
    d.low.s == supervisor && d.low.w == writeProtected && d.low.cm == COPY_BACK && d.low.t == PAGE_RESIDENT
  }

  // The descriptor bits that alloc_at does not set.
  ghost predicate SameOtherBits(d: Word, e: Word) {
    d.low.upper == e.low.upper && d.low.m == e.low.m && d.low.u == e.low.u
  }

  lemma MappedEntryAsRequested(w: Word, frame: Word, supervisor: bool, writeProtected: bool)
    ensures var d := MappedEntry(w, frame, supervisor, writeProtected);
      Requested(d, supervisor, writeProtected) && SameOtherBits(d, w) && d.page == frame.page
  {
  }

  // `page` of r is mapped to the zeroed frame, in place of a page that was
  // mapped there before.
  ghost predicate MappedAt(s0: State, s: State, r: nat, page: nat, frame: Word, supervisor: bool,
      writeProtected: bool) {
    && Translate(s.mem, r, page).Some?
    && var d := Translate(s.mem, r, page).value;
    && d.page == frame.page && Requested(d, supervisor, writeProtected)
    && frame.page in s.mem && s.mem[frame.page] == ZeroFrame()
    && frame.page in s0.own
    && (match Translate(s0.mem, r, page)
        case Some(d0) => d0.page == d.page && SameOtherBits(d0, d)
        case None => s0.own[frame.page].Free?)
  }

  lemma MappedWalk(s0: State, s1: State, r: nat, i: nat, j: nat, k: nat, p: nat, t: nat, w: Word)
    requires Wf(s0) && s0.dead == {} && Indices(s0, r, i, j, k)
    requires p in s0.own && s0.own[p] == Node(POINTERS, r, r, i) && t in s0.own && s0.own[t] == Node(TABLE, r, p, j)
    requires PageMapped(s0, s1, t, k, w)
    ensures Walk(s1.mem, r, i, j, k) == Some(w)
    ensures Walk(s0.mem, r, i, j, k) == if PageResident(Read(s0.mem, t, k)) then Some(Read(s0.mem, t, k)) else None
    ensures w.page in s0.own && (!PageResident(Read(s0.mem, t, k)) ==> s0.own[w.page].Free?)
  {
    assert Up(s0, p) && Up(s0, t);
    assert SameBut(s0, s1, t, w.page, r) && SameBut(s0, s1, t, w.page, p);
    assert Read(s1.mem, r, i) == Read(s0.mem, r, i) && Read(s1.mem, p, j) == Read(s0.mem, p, j);
    assert Up(s0, w.page);
  }

  lemma WasFree(s0: State, s1: State, q: nat, x: nat, f: nat)
    requires Descended(s0, s1, q, x) && f in s1.own && s1.own[f].Free?
    ensures f in s0.own && s0.own[f].Free?
  {
    if s1 != s0 { assert KeptOrTaken(s0, s1, q, f); }
  }

  lemma AllocAtMaps(s0: State, s1: State, s2: State, s3: State, r: nat, page: nat, frame: Word, supervisor: bool,
      writeProtected: bool)
    requires AllocSteps(s0, s1, s2, s3, r, page, frame, supervisor, writeProtected)
    ensures MappedAt(s0, s3, r, page, frame, supervisor, writeProtected)
  {
    var i, j, k := RootIndex(page), PointerIndex(page), PageIndex(page);
    var p := Child(s1.mem, r, i);
    var t := Child(s2.mem, p, j);
    var w := Read(s2.mem, t, k);
    MappedEntryAsRequested(w, frame, supervisor, writeProtected);
    DescentMovesNothing(s0, s1, r, i, r, i, j, k);
    DescentMovesNothing(s1, s2, p, j, r, i, j, k);
    if s2 != s1 { assert KeptOrTaken(s1, s2, p, p); }
    MappedWalk(s2, s3, r, i, j, k, p, t, MappedEntry(w, frame, supervisor, writeProtected));
    if !PageResident(w) {
      WasFree(s1, s2, p, j, frame.page);
      WasFree(s0, s1, r, i, frame.page);
    }
  }

  // Frame f kept its role, or was free and joined the tree of r: none is lost.
  ghost predicate KeptOrJoined(s0: State, s: State, r: nat, f: nat)
    requires f in s0.own && f in s.own
  {
    s.own[f] == s0.own[f] || (s0.own[f].Free? && s.own[f].Node? && s.own[f].root == r)
  }

  ghost predicate JoinsOnly(s0: State, s: State, r: nat) {
    && s.own.Keys == s0.own.Keys
    && forall f: nat {:trigger KeptOrJoined(s0, s, r, f)} :: f in s0.own ==> KeptOrJoined(s0, s, r, f)
  }

  lemma DescentJoins(s0: State, s1: State, q: nat, x: nat)
    requires Descended(s0, s1, q, x)
    ensures q in s1.own && s1.own[q].Node? && JoinsOnly(s0, s1, s1.own[q].root)
  {
    forall f | f in s0.own && s1.own.Keys == s0.own.Keys ensures KeptOrJoined(s0, s1, s1.own[q].root, f) {
      if s1 != s0 { assert KeptOrTaken(s0, s1, q, f); }
    }
  }

  lemma AllocAtJoinsOnly(s0: State, s1: State, s2: State, s3: State, r: nat, page: nat, frame: Word, supervisor: bool,
      writeProtected: bool)
    requires AllocSteps(s0, s1, s2, s3, r, page, frame, supervisor, writeProtected)
    ensures JoinsOnly(s0, s3, r)
  {
    var i, j := RootIndex(page), PointerIndex(page);
    var p := Child(s1.mem, r, i);
    var t := Child(s2.mem, p, j);
    DescentJoins(s0, s1, r, i);
    DescentJoins(s1, s2, p, j);
    if s2 != s1 { assert KeptOrTaken(s1, s2, p, p); }
    if s1 != s0 { assert KeptOrTaken(s0, s1, r, r); }
    forall f | f in s0.own ensures KeptOrJoined(s0, s3, r, f) {
      assert KeptOrJoined(s0, s1, r, f) && KeptOrJoined(s1, s2, r, f);
      assert SameBut(s2, s3, t, frame.page, f);
    }
  }

  lemma PointerEntryAfterDescent(s0: State, s1: State, r: nat, i: nat, j: nat)
    requires Wf(s0) && Indices(s0, r, i, j, 0) && Descended(s0, s1, r, i)
    ensures UpperResident(Read(s1.mem, Child(s1.mem, r, i), j)) <==> FramesNeeded(s0.mem, r, i, j) == 1
    ensures UpperResident(Read(s0.mem, r, i)) <==> s1 == s0
  {
    if s1 != s0 { assert Read(s1.mem, Child(s1.mem, r, i), j) == NULL; }
  }
}
