// Who owns each managed frame. The ghost map `own` gives every frame exactly
// one role; the predicates below say that the role agrees with what the
// descriptors and free-list links stored in physical memory say.
module Ownership {
  import opened Descriptors

  // Free(n): n-th frame of the free stack counted from its bottom.
  // Held: taken from the stack, not yet hung into a tree.
  // Node: the table or page that entry `index` of table `parent` names, in
  // the tree under root table `root`; a root table is its own parent.
  datatype Role =
    | Free(n: nat)
    | Held
    | Node(level: nat, root: nat, parent: nat, index: nat)

  // `free` lists the free frames, bottom of the stack first. `dead` holds the
  // entries whose frame has been given back although the descriptor still
  // looks resident. `srp` is the supervisor root table.
  datatype State = State(
    mem: Memory,
    own: map<nat, Role>,
    free: seq<nat>,
    dead: set<(nat, nat)>,
    srp: nat)

  // Entries 0..95 of the supervisor root mirror the current user root, and
  // entry 112 leads to the mapping windows; the tree owns only the others.
  ghost predicate Owns(st: State, q: nat, x: nat) {
    q == st.srp ==> 96 <= x && x != 112
  }

  ghost predicate IsTable(st: State, q: nat) {
    q in st.own && st.own[q].Node? && st.own[q].level < 3
  }

  ghost predicate IsRoot(st: State, r: nat) {
    r in st.own && st.own[r] == Node(0, r, r, 0)
  }

  function Child(mem: Memory, q: nat, x: nat): nat {
    Read(mem, q, x).page
  }

  // Entry x of table q leads to a frame that the tree owns.
  ghost predicate Live(st: State, q: nat, x: nat) {
    && IsTable(st, q)
    && x < Entries(st.own[q].level)
    && Owns(st, q, x)
    && Resident(st.own[q].level, Read(st.mem, q, x))
    && (q, x) !in st.dead
  }

  // Downwards: a live entry names a frame whose role is that entry's child.
  ghost predicate Down(st: State, q: nat, x: nat) {
    Live(st, q, x) ==>
      && Aligned(st.own[q].level, Read(st.mem, q, x))
      && Child(st.mem, q, x) in st.own
      && st.own[Child(st.mem, q, x)] == Node(st.own[q].level + 1, st.own[q].root, q, x)
  }

  // Upwards: a frame's role is backed by the stack or by its parent's entry.
  ghost predicate Up(st: State, f: nat)
    requires f in st.own
  {
    match st.own[f]
    case Free(n) => n < |st.free| && st.free[n] == f
    case Held => true
    case Node(l, r, q, x) =>
      if l == 0 then r == f && q == f && x == 0
      else
        && l <= 3
        && Live(st, q, x)
        && st.own[q].level == l - 1
        && st.own[q].root == r
        && Child(st.mem, q, x) == f
  }

  // The n-th free frame stores the address of the frame under it.
  ghost predicate Linked(st: State, n: nat)
    requires n < |st.free|
  {
    && st.free[n] in st.own
    && st.own[st.free[n]] == Free(n)
    && Read(st.mem, st.free[n], 0) == Link(st.free[..n])
  }

  ghost predicate Managed(st: State, f: nat) {
    FIRST_FRAME <= f < LIMIT_FRAME && f in st.mem
  }

  ghost predicate Wf(st: State) {
    && IsRoot(st, st.srp)
    && (forall f: nat {:trigger Managed(st, f)} :: f in st.own ==> Managed(st, f))
    && (forall q: nat, x: nat {:trigger Down(st, q, x)} :: Down(st, q, x))
    && (forall f: nat {:trigger Up(st, f)} :: f in st.own ==> Up(st, f))
    && (forall n: nat {:trigger Linked(st, n)} :: n < |st.free| ==> Linked(st, n))
  }

  // Nothing hangs below f any more.
  ghost predicate Childless(st: State, f: nat) {
    forall x: nat {:trigger Live(st, f, x)} :: !Live(st, f, x)
  }

  // The entries of table f from x0 on are not resident.
  ghost predicate EmptyFrom(mem: Memory, f: nat, level: nat, x0: nat) {
    forall x: nat {:trigger Read(mem, f, x)} :: x0 <= x < Entries(level) ==> !Resident(level, Read(mem, f, x))
  }

  // The address of the top frame, as stored in the list head.
  function Link(free: seq<nat>): Word {
    if |free| == 0 then NULL else AddressOf(free[|free| - 1])
  }

  // ---- The steps every manager function is made of ----

  // Take the top frame of the stack and clear it.
  ghost function Take(st: State): State
    requires |st.free| > 0
  {
    var f := st.free[|st.free| - 1];
    State(st.mem[f := ZeroFrame()], st.own[f := Held], st.free[..|st.free| - 1], st.dead, st.srp)
  }

  // Push frame f, storing the link in its first word.
  ghost function Give(st: State, f: nat): State
    requires f in st.own
  {
    st.(mem := Write(st.mem, f, 0, Link(st.free)),
        own := st.own[f := Free(|st.free|)],
        free := st.free + [f],
        dead := st.dead + if st.own[f].Node? && st.own[f].level > 0 then {(st.own[f].parent, st.own[f].index)} else {})
  }

  // Store a descriptor for the held frame f in entry x of table q.
  ghost function Hang(st: State, f: nat, q: nat, x: nat, w: Word): State
    requires IsTable(st, q)
  {
    st.(mem := Write(st.mem, q, x, w),
        own := st.own[f := Node(st.own[q].level + 1, st.own[q].root, q, x)],
        dead := st.dead - {(q, x)})
  }

  // Change an entry without changing what it leads to.
  ghost function Touch(st: State, q: nat, x: nat, w: Word): State {
    st.(mem := Write(st.mem, q, x, w))
  }

  lemma TakeKeepsWf(st: State)
    requires Wf(st) && |st.free| > 0
    ensures Wf(Take(st))
  {
    var f := st.free[|st.free| - 1];
    var s := Take(st);
    assert Linked(st, |st.free| - 1);
    assert Managed(st, f);
    forall g | g in s.own ensures Managed(s, g) { assert Managed(st, g); }
    forall g | g in s.own ensures Up(s, g) { assert Up(st, g); }
    forall q: nat, x: nat ensures Down(s, q, x) { assert Down(st, q, x); }
    forall n | 0 <= n < |s.free| ensures Linked(s, n) { assert Linked(st, n); }
  }

  lemma GiveUp(st: State, f: nat, g: nat)
    requires Wf(st) && f in st.own && !st.own[f].Free? && f != st.srp && Childless(st, f)
    requires g in st.own
    ensures Up(Give(st, f), g)
  {
    assert Managed(st, f);
    assert Up(st, g);
    assert Up(st, f);
    if st.own[g].Node? {
      assert !Live(st, f, st.own[g].index);
    }
  }

  lemma GiveKeepsWf(st: State, f: nat)
    requires Wf(st) && f in st.own && !st.own[f].Free? && f != st.srp && Childless(st, f)
    ensures Wf(Give(st, f))
  {
    var s := Give(st, f);
    assert Managed(st, f);
    forall g | g in s.own ensures Managed(s, g) { assert Managed(st, g); }
    forall g | g in s.own ensures Up(s, g) { GiveUp(st, f, g); }
    forall q: nat, x: nat ensures Down(s, q, x) { assert Down(st, q, x); }
    forall n | 0 <= n < |s.free| ensures Linked(s, n) { if n < |st.free| { assert Linked(st, n); } }
  }

  ghost predicate CanHang(st: State, f: nat, q: nat, x: nat, w: Word) {
    && Wf(st) && f in st.own && st.own[f] == Held
    && IsTable(st, q) && x < Entries(st.own[q].level) && Owns(st, q, x) && !Live(st, q, x)
    && Resident(st.own[q].level, w) && Aligned(st.own[q].level, w) && w.page == f
    && EmptyFrom(st.mem, f, st.own[q].level + 1, 0)
  }

  lemma HangUp(st: State, f: nat, q: nat, x: nat, w: Word, g: nat)
    requires CanHang(st, f, q, x, w) && g in st.own
    ensures Up(Hang(st, f, q, x, w), g)
  {
    assert Managed(st, q);
    assert Up(st, g);
  }

  lemma HangDown(st: State, f: nat, q: nat, x: nat, w: Word, p: nat, y: nat)
    requires CanHang(st, f, q, x, w)
    ensures Down(Hang(st, f, q, x, w), p, y)
  {
    assert Managed(st, q);
    assert Down(st, p, y);
    assert p == f && y < Entries(st.own[q].level + 1) ==> !Resident(st.own[q].level + 1, Read(st.mem, f, y));
  }

  lemma HangKeepsWf(st: State, f: nat, q: nat, x: nat, w: Word)
    requires CanHang(st, f, q, x, w)
    ensures Wf(Hang(st, f, q, x, w))
  {
    var s := Hang(st, f, q, x, w);
    forall g | g in s.own ensures Managed(s, g) { assert Managed(st, g); }
    forall g | g in s.own ensures Up(s, g) { HangUp(st, f, q, x, w, g); }
    forall p: nat, y: nat ensures Down(s, p, y) { HangDown(st, f, q, x, w, p, y); }
    forall n | 0 <= n < |s.free| ensures Linked(s, n) { assert Linked(st, n); }
  }

  // What a resident entry of a table tells about the frame it names.
  lemma EntryLeads(st: State, q: nat, x: nat)
    requires Wf(st) && Live(st, q, x)
    ensures Aligned(st.own[q].level, Read(st.mem, q, x))
    ensures Child(st.mem, q, x) in st.own
    ensures st.own[Child(st.mem, q, x)] == Node(st.own[q].level + 1, st.own[q].root, q, x)
    ensures st.own[q].level == 0 ==> RootTableAddress(Read(st.mem, q, x)) == AddressOf(Child(st.mem, q, x))
    ensures st.own[q].level == 1 ==> PointerTableAddress(Read(st.mem, q, x)) == AddressOf(Child(st.mem, q, x))
    ensures st.own[q].level == 2 ==> PageAddress(Read(st.mem, q, x)) == AddressOf(Child(st.mem, q, x))
  {
    assert Down(st, q, x);
  }

  lemma TouchKeepsWf(st: State, q: nat, x: nat, w: Word)
    requires Wf(st) && Live(st, q, x)
    requires Resident(st.own[q].level, w) && Aligned(st.own[q].level, w)
    requires w.page == Child(st.mem, q, x)
    ensures Wf(Touch(st, q, x, w))
  {
    var s := Touch(st, q, x, w);
    assert Managed(st, q);
    forall g | g in s.own ensures Managed(s, g) { assert Managed(st, g); }
    forall g | g in s.own ensures Up(s, g) { assert Up(st, g); }
    forall p: nat, y: nat ensures Down(s, p, y) { assert Down(st, p, y); }
    forall n | 0 <= n < |s.free| ensures Linked(s, n) { assert Linked(st, n); }
  }

  // Store a non-resident descriptor where nothing hangs.
  ghost function Erase(st: State, q: nat, x: nat, w: Word): State {
    State(Write(st.mem, q, x, w), st.own, st.free, st.dead - {(q, x)}, st.srp)
  }

  lemma EraseKeepsWf(st: State, q: nat, x: nat, w: Word)
    requires Wf(st) && IsTable(st, q) && !Live(st, q, x) && !Resident(st.own[q].level, w)
    ensures Wf(Erase(st, q, x, w))
  {
    var s := Erase(st, q, x, w);
    assert Managed(st, q);
    forall g | g in s.own ensures Managed(s, g) { assert Managed(st, g); }
    forall g | g in s.own ensures Up(s, g) { assert Up(st, g); }
    forall p: nat, y: nat ensures Down(s, p, y) { assert Down(st, p, y); }
    forall n | 0 <= n < |s.free| ensures Linked(s, n) { assert Linked(st, n); }
  }

  // The contents of a page, or of a frame in flight, are nobody's descriptors.
  ghost function Fill(st: State, f: nat, contents: Frame): State {
    State(st.mem[f := contents], st.own, st.free, st.dead, st.srp)
  }

  lemma FillKeepsWf(st: State, f: nat, contents: Frame)
    requires Wf(st) && f in st.own
    requires st.own[f] == Held || (st.own[f].Node? && st.own[f].level == 3)
    ensures Wf(Fill(st, f, contents))
  {
    var s := Fill(st, f, contents);
    assert Managed(st, f);
    forall g | g in s.own ensures Managed(s, g) { assert Managed(st, g); }
    forall g | g in s.own ensures Up(s, g) { assert Up(st, g); }
    forall p: nat, y: nat ensures Down(s, p, y) { assert Down(st, p, y); }
    forall n | 0 <= n < |s.free| ensures Linked(s, n) { assert Linked(st, n); }
  }

  // A held, empty frame becomes the root table of a new address space.
  ghost function Plant(st: State, f: nat): State {
    State(st.mem, st.own[f := Node(0, f, f, 0)], st.free, st.dead, st.srp)
  }

  lemma PlantKeepsWf(st: State, f: nat)
    requires Wf(st) && f in st.own && st.own[f] == Held && EmptyFrom(st.mem, f, 0, 0)
    ensures Wf(Plant(st, f))
  {
    var s := Plant(st, f);
    forall g | g in s.own ensures Managed(s, g) { assert Managed(st, g); }
    forall g | g in s.own ensures Up(s, g) { assert Up(st, g); }
    forall p: nat, y: nat ensures Down(s, p, y) { assert Down(st, p, y); }
    forall n | 0 <= n < |s.free| ensures Linked(s, n) { assert Linked(st, n); }
  }

  // Once no dead entry looks resident in a live table, none needs to be remembered.
  lemma SettleKeepsWf(st: State)
    requires Wf(st)
    requires forall d {:trigger d in st.dead} :: d in st.dead ==> !IsTable(st, d.0)
    ensures Wf(st.(dead := {}))
  {
    var s := st.(dead := {});
    forall g | g in s.own ensures Managed(s, g) { assert Managed(st, g); }
    forall g | g in s.own ensures Up(s, g) { assert Up(st, g); }
    forall p: nat, y: nat ensures Down(s, p, y) { assert Down(st, p, y); }
    forall n | 0 <= n < |s.free| ensures Linked(s, n) { assert Linked(st, n); }
  }

  // A root without live entries has no descendants left.
  lemma ChildlessRootIsAlone(st: State, r: nat, f: nat)
    requires Wf(st) && IsRoot(st, r) && Childless(st, r)
    requires f in st.own && st.own[f].Node? && st.own[f].root == r
    ensures f == r
    decreases if st.own[f].Node? then st.own[f].level else 0
  {
    assert Up(st, f);
    if st.own[f].level > 0 {
      assert !Live(st, r, st.own[f].index);
      ChildlessRootIsAlone(st, r, st.own[f].parent);
    }
  }

  // ---- Tearing a tree down ----

  // Frame f kept its role and contents, or it was a node of level `level` or
  // deeper in the tree of r and is now free.
  ghost predicate KeptOrFreed(s0: State, s: State, r: nat, level: nat, f: nat)
    requires f in s0.own && f in s.own
  {
    || (s.own[f] == s0.own[f] && f in s0.mem && f in s.mem && s.mem[f] == s0.mem[f])
    || (s0.own[f].Node? && s0.own[f].root == r && s0.own[f].level >= level && s.own[f].Free?)
  }

  ghost predicate Freed(s0: State, s: State, r: nat, level: nat) {
    && s.own.Keys == s0.own.Keys
    && s.mem.Keys == s0.mem.Keys
    && s.srp == s0.srp
    && s0.free <= s.free
    && forall f: nat {:trigger KeptOrFreed(s0, s, r, level, f)} :: f in s0.own ==> KeptOrFreed(s0, s, r, level, f)
  }

  lemma FreedNothing(st: State, r: nat, level: nat)
    requires Wf(st)
    ensures Freed(st, st, r, level)
  {
    forall f | f in st.own ensures KeptOrFreed(st, st, r, level, f) { assert Managed(st, f); }
  }

  lemma FreedChain(s0: State, s1: State, s2: State, r: nat, level: nat, a: nat, b: nat)
    requires Freed(s0, s1, r, a) && Freed(s1, s2, r, b) && level <= a && level <= b
    ensures Freed(s0, s2, r, level)
  {
    forall f | f in s0.own ensures KeptOrFreed(s0, s2, r, level, f) {
      assert KeptOrFreed(s0, s1, r, a, f);
      assert KeptOrFreed(s1, s2, r, b, f);
    }
  }

  lemma FreedByGive(st: State, f: nat, r: nat, level: nat)
    requires Wf(st) && f in st.own && st.own[f].Node? && st.own[f].root == r && st.own[f].level >= level
    ensures Freed(st, Give(st, f), r, level)
  {
    forall g | g in st.own ensures KeptOrFreed(st, Give(st, f), r, level, g) { assert Managed(st, g); }
  }

  // Outside the root table itself, nothing but nodes of the tree of r changed,
  // and those that did are free.
  ghost predicate Torn(s0: State, s: State, r: nat) {
    && s.own.Keys == s0.own.Keys
    && s.mem.Keys == s0.mem.Keys
    && s.srp == s0.srp
    && s0.free <= s.free
    && IsRoot(s0, r) && IsRoot(s, r)
    && forall f: nat {:trigger KeptOrFreed(s0, s, r, POINTERS, f)} ::
        f in s0.own && f != r ==> KeptOrFreed(s0, s, r, POINTERS, f)
  }

  lemma TornNothing(st: State, r: nat)
    requires Wf(st) && IsRoot(st, r)
    ensures Torn(st, st, r)
  {
    FreedNothing(st, r, POINTERS);
  }

  lemma TornChain(s0: State, s1: State, s2: State, r: nat)
    requires Torn(s0, s1, r) && Torn(s1, s2, r)
    ensures Torn(s0, s2, r)
  {
    forall f | f in s0.own && f != r ensures KeptOrFreed(s0, s2, r, POINTERS, f) {
      assert KeptOrFreed(s0, s1, r, POINTERS, f);
      assert KeptOrFreed(s1, s2, r, POINTERS, f);
    }
  }

  lemma TornByErase(s0: State, s1: State, r: nat, x: nat, w: Word)
    requires IsRoot(s0, r) && IsRoot(s1, r) && Freed(s0, s1, r, POINTERS)
    ensures Torn(s0, Erase(s1, r, x, w), r)
  {
    forall f | f in s0.own && f != r ensures KeptOrFreed(s0, Erase(s1, r, x, w), r, POINTERS, f) {
      assert KeptOrFreed(s0, s1, r, POINTERS, f);
    }
  }

  lemma TornThenSettled(s0: State, s: State, r: nat)
    requires Torn(s0, s, r)
    ensures Torn(s0, s.(dead := {}), r)
  {
    forall f | f in s0.own && f != r ensures KeptOrFreed(s0, s.(dead := {}), r, POINTERS, f) {
      assert KeptOrFreed(s0, s, r, POINTERS, f);
    }
  }

  // Dead entries belong to the first j entries of table p or to freed tables.
  ghost predicate DeadBelow(st: State, p: nat, j: nat) {
    forall d {:trigger d in st.dead} :: d in st.dead ==> (d.0 == p && d.1 < j) || !IsTable(st, d.0)
  }

  // Giving back page table t after its pages, as entry j of pointer table p.
  lemma PointerEntryCleared(s0: State, s1: State, p: nat, j: nat)
    requires Wf(s0) && Wf(s1) && Live(s0, p, j) && s0.own[p].level == POINTERS && DeadBelow(s0, p, j)
    requires Freed(s0, s1, s0.own[p].root, PAGE) && Childless(s1, Child(s0.mem, p, j))
    requires forall d {:trigger d in s1.dead} :: d in s1.dead ==> d in s0.dead || d.0 == Child(s0.mem, p, j)
    ensures var t := Child(s0.mem, p, j);
      && t in s1.own && s1.own[t] == Node(TABLE, s0.own[p].root, p, j) && t != s1.srp
      && var s2 := Give(s1, t);
      && Freed(s0, s2, s0.own[p].root, TABLE) && DeadBelow(s2, p, j + 1)
      && s2.own[p] == s0.own[p] && s2.mem[p] == s0.mem[p]
  {
    var t, r := Child(s0.mem, p, j), s0.own[p].root;
    EntryLeads(s0, p, j);
    assert KeptOrFreed(s0, s1, r, PAGE, t);
    assert KeptOrFreed(s0, s1, r, PAGE, p);
    FreedByGive(s1, t, r, TABLE);
    FreedChain(s0, s1, Give(s1, t), r, TABLE, PAGE, TABLE);
    forall d | d in Give(s1, t).dead ensures (d.0 == p && d.1 < j + 1) || !IsTable(Give(s1, t), d.0) {
      if d.0 in s0.own { assert KeptOrFreed(s0, Give(s1, t), r, TABLE, d.0); }
    }
  }

  // Every dead entry but (q, x) belongs to a freed table.
  ghost predicate DeadOnly(st: State, q: nat, x: nat) {
    forall d {:trigger d in st.dead} :: d in st.dead ==> d == (q, x) || !IsTable(st, d.0)
  }

  // Giving back pointer table p after everything under it, as entry i of root
  // table r.
  lemma RootEntryCleared(s0: State, s1: State, r: nat, i: nat)
    requires Wf(s0) && Wf(s1) && Live(s0, r, i) && IsRoot(s0, r) && DeadBelow(s0, r, 0)
    requires r != s0.srp
    requires Freed(s0, s1, r, TABLE) && Childless(s1, Child(s0.mem, r, i)) && DeadBelow(s1, Child(s0.mem, r, i), 128)
    ensures var p := Child(s0.mem, r, i);
      && p in s1.own && s1.own[p] == Node(POINTERS, r, r, i) && p != s1.srp
      && var s2 := Give(s1, p);
      && IsRoot(s2, r) && s2.mem[r] == s0.mem[r]
      && Freed(s0, s2, r, POINTERS) && DeadOnly(s2, r, i) && (r, i) in s2.dead
  {
    var p := Child(s0.mem, r, i);
    EntryLeads(s0, r, i);
    assert KeptOrFreed(s0, s1, r, TABLE, p);
    assert KeptOrFreed(s0, s1, r, TABLE, r);
    FreedByGive(s1, p, r, POINTERS);
    FreedChain(s0, s1, Give(s1, p), r, POINTERS, TABLE, POINTERS);
  }

  lemma EmptyIsChildless(st: State, r: nat)
    requires IsRoot(st, r) && EmptyFrom(st.mem, r, ROOT, 0)
    ensures Childless(st, r)
  {
    forall x: nat ensures !Live(st, r, x) {
      assert x < Entries(ROOT) ==> !Resident(ROOT, Read(st.mem, r, x));
    }
  }
}
