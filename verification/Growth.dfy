// What building a tree does to the rest of the machine.
module Growth {
  import opened Descriptors
  import opened Ownership
  import opened Translation

  // A frame that was in use kept its role, and its contents unless it is the
  // table q being filled; a free frame stayed free or joined the tree of q.
  ghost predicate KeptOrTaken(s0: State, s: State, q: nat, f: nat)
    requires f in s0.own && f in s.own && q in s0.own && s0.own[q].Node?
  {
    if s0.own[f].Free? then
      || (s.own[f] == s0.own[f] && f in s.mem && f in s0.mem && s.mem[f] == s0.mem[f])
      || (s.own[f].Node? && s.own[f].root == s0.own[q].root && s.own[f].level > 0)
    else
      && s.own[f] == s0.own[f]
      && (f != q ==> f in s.mem && f in s0.mem && s.mem[f] == s0.mem[f])
  }

  ghost predicate Grown(s0: State, s: State, q: nat) {
    && s.own.Keys == s0.own.Keys
    && s.mem.Keys == s0.mem.Keys
    && s.srp == s0.srp
    && s0.dead == s.dead == {}
    && s.free <= s0.free
    && q in s0.own && s0.own[q].Node?
    && forall f: nat {:trigger KeptOrTaken(s0, s, q, f)} :: f in s0.own ==> KeptOrTaken(s0, s, q, f)
  }

  lemma GrownNothing(st: State, q: nat)
    requires Wf(st) && st.dead == {} && q in st.own && st.own[q].Node?
    ensures Grown(st, st, q)
  {
    forall f | f in st.own ensures KeptOrTaken(st, st, q, f) { assert Managed(st, f); }
  }

  lemma GrownChain(s0: State, s1: State, s2: State, q: nat, q2: nat)
    requires Grown(s0, s1, q) && Grown(s1, s2, q2)
    requires q2 == q || (q2 in s0.own && s0.own[q2].Free?)
    requires s1.own[q2].root == s0.own[q].root
    ensures Grown(s0, s2, q)
  {
    forall f | f in s0.own ensures KeptOrTaken(s0, s2, q, f) {
      assert KeptOrTaken(s0, s1, q, f);
      assert KeptOrTaken(s1, s2, q2, f);
    }
  }

  // Taking a frame and hanging it in entry x of table q.
  lemma GrownByHang(st: State, f: nat, q: nat, x: nat, w: Word)
    requires Wf(st) && st.dead == {} && |st.free| > 0 && f == st.free[|st.free| - 1]
    requires IsTable(st, q) && x < Entries(st.own[q].level) && Owns(st, q, x)
    requires !Resident(st.own[q].level, Read(st.mem, q, x))
    requires Resident(st.own[q].level, w) && Aligned(st.own[q].level, w) && w.page == f
    ensures f in st.own && st.own[f].Free? && f != q
    ensures CanHang(Take(st), f, q, x, w)
    ensures Grown(st, Hang(Take(st), f, q, x, w), q)
  {
    assert Linked(st, |st.free| - 1);
    assert Managed(st, f) && Managed(st, q);
    TakeKeepsWf(st);
    var s := Hang(Take(st), f, q, x, w);
    forall g | g in st.own ensures KeptOrTaken(st, s, q, g) { assert Managed(st, g); }
  }

  lemma GrownByErase(st: State, q: nat, x: nat, w: Word)
    requires Wf(st) && st.dead == {} && q in st.own && st.own[q].Node?
    ensures Grown(st, Erase(st, q, x, w), q)
  {
    forall f | f in st.own ensures KeptOrTaken(st, Erase(st, q, x, w), q, f) { assert Managed(st, f); }
  }

  lemma GrownByFill(s0: State, s1: State, q: nat, f: nat, contents: Frame)
    requires Grown(s0, s1, q) && f in s0.own && s0.own[f].Free? && f in s1.mem && s1.own[f].Node?
    ensures Grown(s0, Fill(s1, f, contents), q)
  {
    forall g | g in s0.own ensures KeptOrTaken(s0, Fill(s1, f, contents), q, g) { assert KeptOrTaken(s0, s1, q, g); }
  }

  // What is copied stays copied while other entries of the copy, or other
  // parts of its tree, are filled in.
  lemma PageStaysCopied(s0: State, s1: State, a: nat, b: nat, k: nat, q: nat)
    requires Wf(s0) && Grown(s0, s1, q) && a != q && k < PAGE_ENTRIES && s0.own[q].level <= TABLE
    requires IsTable(s0, a) && s0.own[a].level == TABLE && IsTable(s0, b) && s0.own[b].level == TABLE
    requires q == b ==> Read(s1.mem, b, k) == Read(s0.mem, b, k)
    requires PageCopied(s0.mem, a, b, k)
    ensures PageCopied(s1.mem, a, b, k)
  {
    assert KeptOrTaken(s0, s1, q, a);
    assert KeptOrTaken(s0, s1, q, b);
    assert Up(s0, a) && Up(s0, b);
    if PageResident(Read(s0.mem, a, k)) {
      EntryLeads(s0, a, k);
      EntryLeads(s0, b, k);
      assert KeptOrTaken(s0, s1, q, Child(s0.mem, a, k));
      assert KeptOrTaken(s0, s1, q, Child(s0.mem, b, k));
    }
  }

  lemma TableStaysCopied(s0: State, s1: State, a: nat, b: nat, j: nat, q: nat)
    requires Wf(s0) && Grown(s0, s1, q) && a != q && j < POINTER_ENTRIES && s0.own[q].level < TABLE
    requires IsTable(s0, a) && s0.own[a].level == POINTERS && IsTable(s0, b) && s0.own[b].level == POINTERS
    requires q == b ==> Read(s1.mem, b, j) == Read(s0.mem, b, j)
    requires TableCopied(s0.mem, a, b, j)
    ensures TableCopied(s1.mem, a, b, j)
  {
    assert KeptOrTaken(s0, s1, q, a);
    assert KeptOrTaken(s0, s1, q, b);
    assert Up(s0, a) && Up(s0, b);
    if UpperResident(Read(s0.mem, a, j)) {
      EntryLeads(s0, a, j);
      EntryLeads(s0, b, j);
      var ta, tb := Child(s0.mem, a, j), Child(s0.mem, b, j);
      forall k: nat | k < PAGE_ENTRIES ensures PageCopied(s1.mem, ta, tb, k) {
        assert PageCopied(s0.mem, ta, tb, k);
        PageStaysCopied(s0, s1, ta, tb, k, q);
      }
    }
  }

  lemma SubtreeStaysCopied(s0: State, s1: State, a: nat, b: nat, i: nat)
    requires Wf(s0) && Grown(s0, s1, b) && a != b && i < ROOT_ENTRIES
    requires IsRoot(s0, a) && IsRoot(s0, b) && a != s0.srp && b != s0.srp
    requires Read(s1.mem, b, i) == Read(s0.mem, b, i)
    requires SubtreeCopied(s0.mem, a, b, i)
    ensures SubtreeCopied(s1.mem, a, b, i)
  {
    assert KeptOrTaken(s0, s1, b, a);
    if UpperResident(Read(s0.mem, a, i)) {
      EntryLeads(s0, a, i);
      EntryLeads(s0, b, i);
      var pa, pb := Child(s0.mem, a, i), Child(s0.mem, b, i);
      forall j: nat | j < POINTER_ENTRIES ensures TableCopied(s1.mem, pa, pb, j) {
        assert TableCopied(s0.mem, pa, pb, j);
        TableStaysCopied(s0, s1, pa, pb, j, b);
      }
    }
  }

  // Building under q leaves other trees alone.
  lemma GrownKeepsTree(s0: State, s1: State, q: nat, r: nat)
    requires Wf(s0) && Grown(s0, s1, q) && s0.own[q].root != r
    ensures SameNodes(s0, s1, r)
  {
    forall f | f in s0.own ensures SameNode(s0, s1, r, f) {
      assert KeptOrTaken(s0, s1, q, f);
      assert Managed(s0, f);
    }
  }

  // One page of a copy: take a frame, hang it with the source's attributes and
  // fill it with the source page.
  ghost function CopyPage(st: State, a: nat, b: nat, k: nat): State
    requires |st.free| > 0 && IsTable(st, b) && st.free[|st.free| - 1] < 0x100000
    requires Child(st.mem, a, k) in st.mem && st.free[|st.free| - 1] != b
  {
    var f := st.free[|st.free| - 1];
    Fill(Hang(Take(st), f, b, k, SetPageAddress(Read(st.mem, a, k), AddressOf(f))), f, st.mem[Child(st.mem, a, k)])
  }

  lemma CopyPageWorks(st: State, a: nat, b: nat, k: nat)
    requires Wf(st) && st.dead == {} && |st.free| > 0 && k < PAGE_ENTRIES && a != b
    requires IsTable(st, a) && st.own[a].level == TABLE && IsTable(st, b) && st.own[b].level == TABLE
    requires PageResident(Read(st.mem, a, k)) && !PageResident(Read(st.mem, b, k))
    ensures st.free[|st.free| - 1] < 0x100000 && st.free[|st.free| - 1] != b && Child(st.mem, a, k) in st.mem
    ensures a in st.mem && b in st.mem && st.free[|st.free| - 1] != a && st.free[|st.free| - 1] != Child(st.mem, a, k)
    ensures Child(st.mem, a, k) != b && PageAddress(Read(st.mem, a, k)) == AddressOf(Child(st.mem, a, k))
    ensures var s := CopyPage(st, a, b, k);
      && Wf(s) && Grown(st, s, b) && PageCopied(s.mem, a, b, k)
      && forall x: nat {:trigger Read(s.mem, b, x)} :: x != k ==> Read(s.mem, b, x) == Read(st.mem, b, x)
  {
    var f := st.free[|st.free| - 1];
    assert Linked(st, |st.free| - 1);
    assert Managed(st, f) && Managed(st, b) && Managed(st, a);
    assert Up(st, a) && Up(st, b);
    EntryLeads(st, a, k);
    assert Managed(st, Child(st.mem, a, k));
    var w := SetPageAddress(Read(st.mem, a, k), AddressOf(f));
    GrownByHang(st, f, b, k, w);
    HangKeepsWf(Take(st), f, b, k, w);
    FillKeepsWf(Hang(Take(st), f, b, k, w), f, st.mem[Child(st.mem, a, k)]);
    GrownByFill(st, Hang(Take(st), f, b, k, w), b, f, st.mem[Child(st.mem, a, k)]);
  }

  // The first k entries of page table b copy those of a.
  ghost predicate PagesCopied(mem: Memory, a: nat, b: nat, k: nat) {
    forall x: nat {:trigger PageCopied(mem, a, b, x)} :: x < k ==> PageCopied(mem, a, b, x)
  }

  lemma PagesCopiedStep(s0: State, s1: State, a: nat, b: nat, k: nat)
    requires Wf(s0) && Grown(s0, s1, b) && a != b && k < PAGE_ENTRIES
    requires IsTable(s0, a) && s0.own[a].level == TABLE && IsTable(s0, b) && s0.own[b].level == TABLE
    requires forall x: nat {:trigger Read(s1.mem, b, x)} :: x != k ==> Read(s1.mem, b, x) == Read(s0.mem, b, x)
    requires PagesCopied(s0.mem, a, b, k) && PageCopied(s1.mem, a, b, k)
    ensures PagesCopied(s1.mem, a, b, k + 1)
    ensures EmptyFrom(s0.mem, b, TABLE, k) ==> EmptyFrom(s1.mem, b, TABLE, k + 1)
    ensures a in s0.mem && a in s1.mem && s1.mem[a] == s0.mem[a]
    ensures s1.own[a] == s0.own[a] && s1.own[b] == s0.own[b]
  {
    forall x: nat | x < k + 1 ensures PageCopied(s1.mem, a, b, x) {
      if x < k {
        assert PageCopied(s0.mem, a, b, x);
        PageStaysCopied(s0, s1, a, b, x, b);
      }
    }
    assert KeptOrTaken(s0, s1, b, a) && KeptOrTaken(s0, s1, b, b);
    assert forall x: nat {:trigger Read(s1.mem, b, x)} :: x != k ==> Read(s1.mem, b, x) == Read(s0.mem, b, x);
  }

  // The descriptor that the stores of address and type leave in an upper level entry.
  function TableEntry(level: nat, w: Word, ph: Word): Word {
    SetType(if level == ROOT then SetRootTableAddress(w, ph) else SetPointerTableAddress(w, ph), UPPER_RESIDENT)
  }

  // A fresh table f hangs in entry x of q.
  ghost predicate TableAdded(s0: State, s: State, q: nat, x: nat, f: nat) {
    && Wf(s) && Grown(s0, s, q) && f in s0.own && s0.own[f].Free? && f != q
    && f in s.own && s.own[f] == Node(s0.own[q].level + 1, s0.own[q].root, q, x)
    && s.own[q] == s0.own[q]
    && UpperResident(Read(s.mem, q, x)) && Child(s.mem, q, x) == f
    && f in s.mem && s.mem[f] == ZeroFrame()
    && forall y: nat {:trigger Read(s.mem, q, y)} :: y != x ==> Read(s.mem, q, y) == Read(s0.mem, q, y)
  }

  lemma AddTableWorks(st: State, q: nat, x: nat)
    requires Wf(st) && st.dead == {} && |st.free| > 0
    requires IsTable(st, q) && st.own[q].level < TABLE && x < Entries(st.own[q].level) && Owns(st, q, x)
    requires !UpperResident(Read(st.mem, q, x))
    ensures var f := st.free[|st.free| - 1];
      var w := TableEntry(st.own[q].level, Read(st.mem, q, x), AddressOf(f));
      && q in st.mem && f != q && TableAdded(st, Hang(Take(st), f, q, x, w), q, x, f)
  {
    var f := st.free[|st.free| - 1];
    assert Linked(st, |st.free| - 1);
    assert Managed(st, f) && Managed(st, q);
    RootDescriptor(Read(st.mem, q, x), f);
    PointerDescriptor(Read(st.mem, q, x), f);
    var w := TableEntry(st.own[q].level, Read(st.mem, q, x), AddressOf(f));
    GrownByHang(st, f, q, x, w);
    HangKeepsWf(Take(st), f, q, x, w);
  }

  ghost predicate TablesCopied(mem: Memory, a: nat, b: nat, j: nat) {
    forall x: nat {:trigger TableCopied(mem, a, b, x)} :: x < j ==> TableCopied(mem, a, b, x)
  }

  // One entry of pointer table b: table f was hung there and filled with the
  // pages of the table that entry j of a names.
  lemma TableEntryCopied(s0: State, s1: State, s2: State, a: nat, b: nat, j: nat, f: nat)
    requires Wf(s0) && j < POINTER_ENTRIES && a != b
    requires IsTable(s0, a) && s0.own[a].level == POINTERS && IsTable(s0, b) && s0.own[b].level == POINTERS
    requires UpperResident(Read(s0.mem, a, j)) && TableAdded(s0, s1, b, j, f)
    requires Grown(s1, s2, f) && Wf(s2)
    ensures Grown(s0, s2, b)
    ensures forall x: nat {:trigger Read(s2.mem, b, x)} :: x != j ==> Read(s2.mem, b, x) == Read(s0.mem, b, x)
    ensures PagesCopied(s2.mem, Child(s0.mem, a, j), f, PAGE_ENTRIES) ==> TableCopied(s2.mem, a, b, j)
  {
    GrownChain(s0, s1, s2, b, f);
    assert KeptOrTaken(s0, s2, b, a);
    assert KeptOrTaken(s1, s2, f, b);
    forall x: nat | x != j ensures Read(s2.mem, b, x) == Read(s0.mem, b, x) {
      assert Read(s1.mem, b, x) == Read(s0.mem, b, x);
    }
  }

  // Before the pages are copied: where the two page tables are.
  lemma TableEntryReady(s0: State, s1: State, a: nat, b: nat, j: nat, f: nat)
    requires Wf(s0) && j < POINTER_ENTRIES && a != b
    requires IsTable(s0, a) && s0.own[a].level == POINTERS && IsTable(s0, b) && s0.own[b].level == POINTERS
    requires UpperResident(Read(s0.mem, a, j)) && TableAdded(s0, s1, b, j, f)
    ensures Read(s1.mem, a, j) == Read(s0.mem, a, j)
    ensures var t := Child(s0.mem, a, j);
      && PointerTableAddress(Read(s0.mem, a, j)) == AddressOf(t) && t < 0x100000
      && IsTable(s1, t) && s1.own[t].level == TABLE && IsTable(s1, f) && s1.own[f].level == TABLE
      && t != f && EmptyFrom(s1.mem, f, TABLE, 0) && PagesFrom(s1.mem, t, 0) == PagesFrom(s0.mem, t, 0)
  {
    var t := Child(s0.mem, a, j);
    assert Up(s0, a) && Up(s0, b);
    EntryLeads(s0, a, j);
    assert Managed(s0, t);
    assert KeptOrTaken(s0, s1, b, a);
    assert KeptOrTaken(s0, s1, b, t);
    PagesFromSame(s0.mem, s1.mem, t, 0);
  }

  lemma TablesCopiedStep(s0: State, s1: State, a: nat, b: nat, j: nat)
    requires Wf(s0) && Grown(s0, s1, b) && a != b && j < POINTER_ENTRIES
    requires IsTable(s0, a) && s0.own[a].level == POINTERS && IsTable(s0, b) && s0.own[b].level == POINTERS
    requires forall x: nat {:trigger Read(s1.mem, b, x)} :: x != j ==> Read(s1.mem, b, x) == Read(s0.mem, b, x)
    requires TablesCopied(s0.mem, a, b, j) && TableCopied(s1.mem, a, b, j)
    ensures TablesCopied(s1.mem, a, b, j + 1)
    ensures EmptyFrom(s0.mem, b, POINTERS, j) ==> EmptyFrom(s1.mem, b, POINTERS, j + 1)
    ensures a in s0.mem && a in s1.mem && s1.mem[a] == s0.mem[a]
    ensures s1.own[a] == s0.own[a] && s1.own[b] == s0.own[b]
  {
    forall x: nat | x < j + 1 ensures TableCopied(s1.mem, a, b, x) {
      if x < j {
        assert TableCopied(s0.mem, a, b, x);
        TableStaysCopied(s0, s1, a, b, x, b);
      }
    }
    assert KeptOrTaken(s0, s1, b, a) && KeptOrTaken(s0, s1, b, b);
    assert forall x: nat {:trigger Read(s1.mem, b, x)} :: x != j ==> Read(s1.mem, b, x) == Read(s0.mem, b, x);
  }

  lemma TableCostSame(s0: State, s1: State, a: nat, b: nat, j: nat)
    requires Wf(s0) && Grown(s0, s1, b) && a != b && j < POINTER_ENTRIES
    requires IsTable(s0, a) && s0.own[a].level == POINTERS && s0.own[b].level == POINTERS
    ensures TableCost(s1.mem, a, j) == TableCost(s0.mem, a, j)
    ensures Read(s1.mem, a, j) == Read(s0.mem, a, j)
  {
    assert Up(s0, a);
    assert KeptOrTaken(s0, s1, b, a);
    if UpperResident(Read(s0.mem, a, j)) {
      EntryLeads(s0, a, j);
      assert KeptOrTaken(s0, s1, b, Child(s0.mem, a, j));
      PagesFromSame(s0.mem, s1.mem, Child(s0.mem, a, j), 0);
    }
  }

  // ---- The same three facts one level up ----

  ghost predicate SubtreesCopied(mem: Memory, a: nat, b: nat, i: nat) {
    forall x: nat {:trigger SubtreeCopied(mem, a, b, x)} :: x < i ==> SubtreeCopied(mem, a, b, x)
  }

  ghost predicate UserRoots(st: State, a: nat, b: nat) {
    IsRoot(st, a) && IsRoot(st, b) && a != b && a != st.srp && b != st.srp
  }

  lemma SubtreeEntryReady(s0: State, s1: State, a: nat, b: nat, i: nat, f: nat)
    requires Wf(s0) && i < ROOT_ENTRIES && UserRoots(s0, a, b)
    requires UpperResident(Read(s0.mem, a, i)) && TableAdded(s0, s1, b, i, f)
    ensures Read(s1.mem, a, i) == Read(s0.mem, a, i)
    ensures var p := Child(s0.mem, a, i);
      && RootTableAddress(Read(s0.mem, a, i)) == AddressOf(p) && p < 0x100000
      && IsTable(s1, p) && s1.own[p].level == POINTERS && IsTable(s1, f) && s1.own[f].level == POINTERS
      && p != f && EmptyFrom(s1.mem, f, POINTERS, 0) && TablesFrom(s1.mem, p, 0) == TablesFrom(s0.mem, p, 0)
  {
    var p := Child(s0.mem, a, i);
    EntryLeads(s0, a, i);
    assert Managed(s0, p);
    assert KeptOrTaken(s0, s1, b, a);
    assert KeptOrTaken(s0, s1, b, p);
    GrownKeepsTree(s0, s1, b, a);
    TablesFromSame(s0, s1, p, 0);
  }

  lemma SubtreeEntryCopied(s0: State, s1: State, s2: State, a: nat, b: nat, i: nat, f: nat)
    requires Wf(s0) && i < ROOT_ENTRIES && UserRoots(s0, a, b)
    requires UpperResident(Read(s0.mem, a, i)) && TableAdded(s0, s1, b, i, f)
    requires Grown(s1, s2, f) && Wf(s2)
    ensures Grown(s0, s2, b)
    ensures forall x: nat {:trigger Read(s2.mem, b, x)} :: x != i ==> Read(s2.mem, b, x) == Read(s0.mem, b, x)
    ensures TablesCopied(s2.mem, Child(s0.mem, a, i), f, POINTER_ENTRIES) ==> SubtreeCopied(s2.mem, a, b, i)
  {
    GrownChain(s0, s1, s2, b, f);
    assert KeptOrTaken(s0, s2, b, a);
    assert KeptOrTaken(s1, s2, f, b);
    forall x: nat | x != i ensures Read(s2.mem, b, x) == Read(s0.mem, b, x) {
      assert Read(s1.mem, b, x) == Read(s0.mem, b, x);
    }
  }

  // The first i root entries are copied, the others are still empty.
  ghost predicate RootCopiedSoFar(s0: State, s: State, a: nat, b: nat, i: nat) {
    && Grown(s0, s, b)
    && UserRoots(s, a, b)
    && SubtreesCopied(s.mem, a, b, i)
    && EmptyFrom(s.mem, b, ROOT, i)
  }

  lemma RootCopiedStep(s0: State, s1: State, s2: State, a: nat, b: nat, i: nat)
    requires RootCopiedSoFar(s0, s1, a, b, i) && UserRoots(s0, a, b) && Wf(s1) && Grown(s1, s2, b) && i < ROOT_ENTRIES
    requires forall x: nat {:trigger Read(s2.mem, b, x)} :: x != i ==> Read(s2.mem, b, x) == Read(s1.mem, b, x)
    requires SubtreeCopied(s2.mem, a, b, i)
    ensures RootCopiedSoFar(s0, s2, a, b, i + 1)
  {
    forall x: nat | x < i + 1 ensures SubtreeCopied(s2.mem, a, b, x) {
      if x < i {
        assert SubtreeCopied(s1.mem, a, b, x);
        SubtreeStaysCopied(s1, s2, a, b, x);
      }
    }
    assert KeptOrTaken(s1, s2, b, a) && KeptOrTaken(s1, s2, b, b);
    GrownChain(s0, s1, s2, b, b);
    assert forall x: nat {:trigger Read(s2.mem, b, x)} :: x != i ==> Read(s2.mem, b, x) == Read(s1.mem, b, x);
  }

  lemma SubtreeCostSame(s0: State, s1: State, a: nat, b: nat, i: nat)
    requires Wf(s0) && Grown(s0, s1, b) && UserRoots(s0, a, b) && i < ROOT_ENTRIES
    ensures SubtreeCost(s1.mem, a, i) == SubtreeCost(s0.mem, a, i)
    ensures Read(s1.mem, a, i) == Read(s0.mem, a, i)
  {
    assert KeptOrTaken(s0, s1, b, a);
    if UpperResident(Read(s0.mem, a, i)) {
      EntryLeads(s0, a, i);
      GrownKeepsTree(s0, s1, b, a);
      TablesFromSame(s0, s1, Child(s0.mem, a, i), 0);
    }
  }
}
