// What an address space means: the page descriptor that a table walk finds
// for each of the 2^20 virtual page numbers, and what it takes to copy a tree.
module Translation {
  import opened Descriptors
  import opened Ownership

  datatype Option<T> = None | Some(value: T)

  const VIRTUAL_PAGES := 0x100000

  function RootIndex(page: nat): nat { page / 8192 % 128 }

  function PointerIndex(page: nat): nat { page / 64 % 128 }

  function PageIndex(page: nat): nat { page % 64 }

  // The page descriptor found by walking the tree under root table r.
  function Walk(mem: Memory, r: nat, i: nat, j: nat, k: nat): Option<Word> {
    if !UpperResident(Read(mem, r, i)) then None
    else
      var p := Child(mem, r, i);
      if !UpperResident(Read(mem, p, j)) then None
      else
        var t := Child(mem, p, j);
        if !PageResident(Read(mem, t, k)) then None
        else Some(Read(mem, t, k))
  }

  function Translate(mem: Memory, r: nat, page: nat): Option<Word> {
    Walk(mem, r, RootIndex(page), PointerIndex(page), PageIndex(page))
  }

  // An address is split from its top: 7 bits, 7 bits, 6 bits. The processor's
  // walk of it reads those three entries, and finds a page where two upper
  // descriptors and a page descriptor are resident.
  lemma AddressIsSplit(mem: Memory, r: nat, i: nat, j: nat, k: nat, v: nat)
    requires i < 128 && j < 128 && k < 64 && v == i * 8192 + j * 64 + k
    ensures v < VIRTUAL_PAGES && RootIndex(v) == i && PointerIndex(v) == j && PageIndex(v) == k
    ensures var d := Read(mem, r, i);
      var e := Read(mem, d.page, j);
      var f := Read(mem, e.page, k);
      Translate(mem, r, v) == if d.low.t >= 2 && e.low.t >= 2 && f.low.t % 2 == 1 then Some(f) else None
  {
    assert v / 64 == i * 128 + j;
    assert v / 8192 == i;
  }

  // ---- Deep copies ----

  ghost predicate PageCopied(mem: Memory, a: nat, b: nat, k: nat) {
    && (PageResident(Read(mem, a, k)) <==> PageResident(Read(mem, b, k)))
    && (PageResident(Read(mem, a, k)) ==>
         && Read(mem, a, k).low == Read(mem, b, k).low
         && Child(mem, a, k) in mem && Child(mem, b, k) in mem
         && mem[Child(mem, a, k)] == mem[Child(mem, b, k)])
  }

  ghost predicate TableCopied(mem: Memory, a: nat, b: nat, j: nat) {
    && (UpperResident(Read(mem, a, j)) <==> UpperResident(Read(mem, b, j)))
    && (UpperResident(Read(mem, a, j)) ==>
         forall k: nat {:trigger PageCopied(mem, Child(mem, a, j), Child(mem, b, j), k)} ::
           k < PAGE_ENTRIES ==> PageCopied(mem, Child(mem, a, j), Child(mem, b, j), k))
  }

  ghost predicate SubtreeCopied(mem: Memory, a: nat, b: nat, i: nat) {
    && (UpperResident(Read(mem, a, i)) <==> UpperResident(Read(mem, b, i)))
    && (UpperResident(Read(mem, a, i)) ==>
         forall j: nat {:trigger TableCopied(mem, Child(mem, a, i), Child(mem, b, i), j)} ::
           j < POINTER_ENTRIES ==> TableCopied(mem, Child(mem, a, i), Child(mem, b, i), j))
  }

  // ---- How many frames a copy takes ----

  // Pages named by entries k.. of page table t.
  function PagesFrom(mem: Memory, t: nat, k: nat): nat
    decreases PAGE_ENTRIES - k
  {
    if k >= PAGE_ENTRIES then 0
    else (if PageResident(Read(mem, t, k)) then 1 else 0) + PagesFrom(mem, t, k + 1)
  }

  // Frames under entry j of pointer table p, its page table included.
  function TableCost(mem: Memory, p: nat, j: nat): nat {
    if UpperResident(Read(mem, p, j)) then 1 + PagesFrom(mem, Child(mem, p, j), 0) else 0
  }

  // Page tables named by entries j.. of pointer table p, and their pages.
  function TablesFrom(mem: Memory, p: nat, j: nat): nat
    decreases POINTER_ENTRIES - j
  {
    if j >= POINTER_ENTRIES then 0
    else TableCost(mem, p, j) + TablesFrom(mem, p, j + 1)
  }

  // Frames under entry i of root table r, its pointer table included.
  function SubtreeCost(mem: Memory, r: nat, i: nat): nat {
    if UpperResident(Read(mem, r, i)) then 1 + TablesFrom(mem, Child(mem, r, i), 0) else 0
  }

  // Pointer tables, page tables and pages under entries i.. of root table r.
  function FramesFrom(mem: Memory, r: nat, i: nat): nat
    decreases ROOT_ENTRIES - i
  {
    if i >= ROOT_ENTRIES then 0
    else SubtreeCost(mem, r, i) + FramesFrom(mem, r, i + 1)
  }

  lemma {:induction false} PagesFromSame(m0: Memory, m1: Memory, t: nat, k: nat)
    requires t in m0 && t in m1 && m0[t] == m1[t]
    ensures PagesFrom(m0, t, k) == PagesFrom(m1, t, k)
    decreases PAGE_ENTRIES - k
  {
    if k < PAGE_ENTRIES {
      PagesFromSame(m0, m1, t, k + 1);
    }
  }

  // Tables of the tree of r and its pages are unchanged.
  ghost predicate SameNodes(s0: State, s1: State, r: nat) {
    forall f: nat {:trigger SameNode(s0, s1, r, f)} :: f in s0.own ==> SameNode(s0, s1, r, f)
  }

  ghost predicate SameNode(s0: State, s1: State, r: nat, f: nat)
    requires f in s0.own
  {
    s0.own[f].Node? && s0.own[f].root == r ==>
      f in s0.mem && f in s1.mem && f in s1.own && s1.mem[f] == s0.mem[f] && s1.own[f] == s0.own[f]
  }

  lemma {:induction false} TablesFromSame(s0: State, s1: State, p: nat, j: nat)
    requires Wf(s0) && s0.dead == {} && IsTable(s0, p) && s0.own[p].level == POINTERS
    requires SameNodes(s0, s1, s0.own[p].root)
    ensures TablesFrom(s0.mem, p, j) == TablesFrom(s1.mem, p, j)
    decreases POINTER_ENTRIES - j
  {
    if j < POINTER_ENTRIES {
      assert SameNode(s0, s1, s0.own[p].root, p);
      assert Up(s0, p) && Owns(s0, p, j);
      if UpperResident(Read(s0.mem, p, j)) {
        EntryLeads(s0, p, j);
        assert SameNode(s0, s1, s0.own[p].root, Child(s0.mem, p, j));
        PagesFromSame(s0.mem, s1.mem, Child(s0.mem, p, j), 0);
      }
      TablesFromSame(s0, s1, p, j + 1);
    }
  }

  lemma {:induction false} FramesFromSame(s0: State, s1: State, r: nat, i: nat)
    requires Wf(s0) && s0.dead == {} && IsRoot(s0, r) && r != s0.srp
    requires SameNodes(s0, s1, r)
    ensures FramesFrom(s0.mem, r, i) == FramesFrom(s1.mem, r, i)
    decreases ROOT_ENTRIES - i
  {
    if i < ROOT_ENTRIES {
      assert SameNode(s0, s1, r, r);
      if UpperResident(Read(s0.mem, r, i)) {
        EntryLeads(s0, r, i);
        TablesFromSame(s0, s1, Child(s0.mem, r, i), 0);
      }
      FramesFromSame(s0, s1, r, i + 1);
    }
  }
}
