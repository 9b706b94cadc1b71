// Whole lives of address spaces: creation, copying, emptying, release.
module Lifetimes {
  import opened Descriptors
  import opened Ownership
  import opened Translation
  import opened Growth
  import opened Mapping

  // ---- The free list ----

  // The list threaded through physical memory holds exactly the frames whose
  // role is free, each once.
  lemma FreeListIsExact(st: State, f: nat)
    requires Wf(st)
    ensures f in st.free <==> f in st.own && st.own[f].Free?
    ensures forall m: nat, n: nat :: m < n < |st.free| ==> st.free[m] != st.free[n]
  {
    if f in st.own && st.own[f].Free? {
      assert Up(st, f);
    }
    if f in st.free {
      var n :| 0 <= n < |st.free| && st.free[n] == f;
      assert Linked(st, n);
    }
    forall m: nat, n: nat | m < n < |st.free| ensures st.free[m] != st.free[n] {
      assert Linked(st, m) && Linked(st, n);
    }
  }

  // Following the links from the head visits the list from its top.
  function Follow(mem: Memory, head: Word, steps: nat): Word
    decreases steps
  {
    if steps == 0 then head else Follow(mem, Read(mem, head.page, 0), steps - 1)
  }

  lemma {:induction false} LinksFollowTheList(st: State, top: nat, steps: nat)
    requires Wf(st) && steps <= top <= |st.free|
    ensures Follow(st.mem, Link(st.free[..top]), steps) == Link(st.free[..top - steps])
    decreases steps
  {
    if steps > 0 {
      assert Linked(st, top - 1);
      assert Managed(st, st.free[top - 1]);
      assert st.free[..top][..top - 1] == st.free[..top - 1];
      LinksFollowTheList(st, top - 1, steps - 1);
    }
  }

  // The list ends in NULL after exactly its length, and not before.
  lemma LinksEnd(st: State, steps: nat)
    requires Wf(st) && steps <= |st.free|
    ensures Follow(st.mem, Link(st.free), steps) == NULL <==> steps == |st.free|
  {
    LinksFollowTheList(st, |st.free|, steps);
    assert st.free[..|st.free|] == st.free;
    if steps < |st.free| {
      assert Linked(st, |st.free| - steps - 1);
      assert Managed(st, st.free[|st.free| - steps - 1]);
    }
  }

  // ---- Freeing a frame twice ----

  // Memory and list head after _free_frame of any frame.
  function Pushed(st: State, f: nat): (Memory, Word) {
    (Write(st.mem, f, 0, Link(st.free)), AddressOf(f))
  }

  // A frame that is on the list makes its links a loop: they never reach NULL.
  lemma {:induction false} DoubleFreeLoops(st: State, f: nat, k: nat, steps: nat)
    requires Wf(st) && f in st.free && k < |st.free| && (exists m: nat :: m <= k && st.free[m] == f)
    ensures Follow(Pushed(st, f).0, AddressOf(st.free[k]), steps) != NULL
    decreases steps
  {
    assert Linked(st, k) && Managed(st, st.free[k]);
    if steps > 0 {
      var m: nat :| m <= k && st.free[m] == f;
      if st.free[k] == f {
        FreeListIsExact(st, f);
        DoubleFreeLoops(st, f, |st.free| - 1, steps - 1);
      } else {
        assert st.free[..k][k - 1] == st.free[k - 1];
        DoubleFreeLoops(st, f, k - 1, steps - 1);
      }
    }
  }

  // A frame that is not on the list leaves the links below it alone.
  lemma {:induction false} PushedLinks(st: State, f: nat, top: nat, steps: nat)
    requires Wf(st) && f !in st.free && steps <= top <= |st.free|
    ensures Follow(Pushed(st, f).0, Link(st.free[..top]), steps) == Link(st.free[..top - steps])
    decreases steps
  {
    if steps > 0 {
      assert Linked(st, top - 1) && Managed(st, st.free[top - 1]);
      assert st.free[..top][..top - 1] == st.free[..top - 1];
      PushedLinks(st, f, top - 1, steps - 1);
    }
  }

  // _free_frame keeps the list a chain that ends if and only if the frame was
  // not on it.
  lemma FreeKeepsChain(st: State, f: nat)
    requires Wf(st) && f in st.own
    ensures (exists steps: nat :: Follow(Pushed(st, f).0, Pushed(st, f).1, steps) == NULL) <==> f !in st.free
  {
    assert Managed(st, f);
    if f in st.free {
      var m: nat :| m < |st.free| && st.free[m] == f;
      forall steps: nat
        ensures Follow(Pushed(st, f).0, Pushed(st, f).1, steps) != NULL { DoubleFreeLoops(st, f, m, steps); }
    } else {
      PushedLinks(st, f, |st.free|, |st.free|);
      assert st.free[..|st.free|] == st.free;
      assert Follow(Pushed(st, f).0, Pushed(st, f).1, |st.free| + 1) == NULL;
    }
  }

  // Ending a process that has ended: its root, empty and just given back, is on
  // the list, still holds no resident entry, so clearing it again frees
  // nothing, and the root is pushed a second time.
  lemma EndingTwiceLoops(st: State, r: nat, steps: nat)
    requires Wf(st) && IsRoot(st, r) && r != st.srp && EmptyFrom(st.mem, r, ROOT, 0)
    ensures var s := Give(st, r);
      && Wf(s) && r in s.free && EmptyFrom(s.mem, r, ROOT, 0)
      && Follow(Pushed(s, r).0, Pushed(s, r).1, steps) != NULL
  {
    EmptyIsChildless(st, r);
    GiveKeepsWf(st, r);
    var s := Give(st, r);
    assert s.free[|st.free|] == r;
    assert Managed(st, r);
    forall x: nat | x < ROOT_ENTRIES ensures !Resident(ROOT, Read(s.mem, r, x)) {
      assert !Resident(ROOT, Read(st.mem, r, x));
    }
    DoubleFreeLoops(s, r, |st.free|, steps);
  }

  // No two trees share a frame, and no frame of a tree is free.
  lemma OneOwner(st: State, r1: nat, i1: nat, j1: nat, k1: nat, r2: nat, i2: nat, j2: nat, k2: nat)
    requires Wf(st) && st.dead == {} && Indices(st, r1, i1, j1, k1) && Indices(st, r2, i2, j2, k2)
    requires Walk(st.mem, r1, i1, j1, k1).Some? && Walk(st.mem, r2, i2, j2, k2).Some?
    requires Walk(st.mem, r1, i1, j1, k1).value.page == Walk(st.mem, r2, i2, j2, k2).value.page
    ensures r1 == r2 && i1 == i2 && j1 == j2 && k1 == k2
    ensures Walk(st.mem, r1, i1, j1, k1).value.page !in st.free
  {
    WalkOwned(st, r1, i1, j1, k1);
    WalkOwned(st, r2, i2, j2, k2);
    FreeListIsExact(st, Walk(st.mem, r1, i1, j1, k1).value.page);
  }

  // ---- Emptying and releasing ----

  // Every node of the tree of r but perhaps the root is free, and nothing else
  // changed.
  ghost predicate GoneOrSame(s0: State, s: State, r: nat, keepRoot: bool, f: nat)
    requires f in s0.own && f in s.own
  {
    if s0.own[f].Node? && s0.own[f].root == r && !(keepRoot && f == r) then s.own[f].Free?
    else s.own[f] == s0.own[f] && (f != r ==> f in s.mem && f in s0.mem && s.mem[f] == s0.mem[f])
  }

  ghost predicate TreeGone(s0: State, s: State, r: nat, keepRoot: bool) {
    && s.own.Keys == s0.own.Keys && s.srp == s0.srp && s0.free <= s.free
    && forall f: nat {:trigger GoneOrSame(s0, s, r, keepRoot, f)} :: f in s0.own ==> GoneOrSame(s0, s, r, keepRoot, f)
  }

  lemma TornAndEmpty(s0: State, s: State, r: nat)
    requires Wf(s0) && Wf(s) && Torn(s0, s, r) && EmptyFrom(s.mem, r, ROOT, 0)
    ensures TreeGone(s0, s, r, true)
  {
    EmptyIsChildless(s, r);
    forall f | f in s0.own ensures GoneOrSame(s0, s, r, true, f) {
      if f != r {
        assert KeptOrFreed(s0, s, r, POINTERS, f);
        if s.own[f].Node? && s.own[f].root == r {
          ChildlessRootIsAlone(s, r, f);
        }
        if s0.own[f].Node? && s0.own[f].level == 0 { assert Up(s0, f); }
      }
    }
  }

  lemma RootGivenBack(s0: State, s1: State, r: nat)
    requires Wf(s1) && TreeGone(s0, s1, r, true) && IsRoot(s0, r) && IsRoot(s1, r)
    ensures TreeGone(s0, Give(s1, r), r, false)
  {
    forall f | f in s0.own ensures GoneOrSame(s0, Give(s1, r), r, false, f) {
      assert GoneOrSame(s0, s1, r, true, f);
    }
  }

  // An emptied space translates nothing.
  lemma EmptyTranslatesNothing(mem: Memory, r: nat, page: nat)
    requires EmptyFrom(mem, r, ROOT, 0) && page < VIRTUAL_PAGES
    ensures Translate(mem, r, page) == None
  {
    assert !Resident(ROOT, Read(mem, r, RootIndex(page)));
  }

  // Every other address space keeps all its translations and contents.
  lemma GoneElsewhere(s0: State, s: State, r: nat, keepRoot: bool, r2: nat, i: nat, j: nat, k: nat)
    requires Wf(s0) && s0.dead == {} && TreeGone(s0, s, r, keepRoot) && IsRoot(s0, r) && r2 != r
    requires Indices(s0, r2, i, j, k)
    ensures Unmoved(s0, s, r2, i, j, k)
  {
    WalkOwned(s0, r2, i, j, k);
    assert GoneOrSame(s0, s, r, keepRoot, r2);
    if UpperResident(Read(s0.mem, r2, i)) {
      var p := Child(s0.mem, r2, i);
      assert GoneOrSame(s0, s, r, keepRoot, p);
      if UpperResident(Read(s0.mem, p, j)) {
        var t := Child(s0.mem, p, j);
        assert GoneOrSame(s0, s, r, keepRoot, t);
        if PageResident(Read(s0.mem, t, k)) {
          assert GoneOrSame(s0, s, r, keepRoot, Child(s0.mem, t, k));
        }
      }
    }
  }

  // ---- Copies ----

  // A copied tree maps the same pages with the same attributes to other frames
  // with the same contents.
  lemma CopyTranslatesAlike(st: State, a: nat, b: nat, page: nat)
    requires Wf(st) && st.dead == {} && UserRoots(st, a, b) && SubtreesCopied(st.mem, a, b, ROOT_ENTRIES)
    requires page < VIRTUAL_PAGES
    ensures Translate(st.mem, a, page).Some? <==> Translate(st.mem, b, page).Some?
    ensures Translate(st.mem, a, page).Some? ==>
      var d, e := Translate(st.mem, a, page).value, Translate(st.mem, b, page).value;
      && d.low == e.low && d.page != e.page
      && d.page in st.mem && e.page in st.mem && st.mem[d.page] == st.mem[e.page]
  {
    var i, j, k := RootIndex(page), PointerIndex(page), PageIndex(page);
    WalkOwned(st, a, i, j, k);
    WalkOwned(st, b, i, j, k);
    assert SubtreeCopied(st.mem, a, b, i);
    if UpperResident(Read(st.mem, a, i)) {
      var pa, pb := Child(st.mem, a, i), Child(st.mem, b, i);
      assert TableCopied(st.mem, pa, pb, j);
      if UpperResident(Read(st.mem, pa, j)) {
        assert PageCopied(st.mem, Child(st.mem, pa, j), Child(st.mem, pb, j), k);
      }
    }
  }

  // Building under root b moves no page of another space.
  lemma GrownElsewhere(s0: State, s: State, b: nat, r: nat, i: nat, j: nat, k: nat)
    requires Wf(s0) && Grown(s0, s, b) && r != b && s0.own[b].root == b && Indices(s0, r, i, j, k)
    ensures Unmoved(s0, s, r, i, j, k)
  {
    WalkOwned(s0, r, i, j, k);
    assert KeptOrTaken(s0, s, b, r);
    if UpperResident(Read(s0.mem, r, i)) {
      var p := Child(s0.mem, r, i);
      assert KeptOrTaken(s0, s, b, p);
      if UpperResident(Read(s0.mem, p, j)) {
        var t := Child(s0.mem, p, j);
        assert KeptOrTaken(s0, s, b, t);
        if PageResident(Read(s0.mem, t, k)) {
          assert KeptOrTaken(s0, s, b, Child(s0.mem, t, k));
        }
      }
    }
  }

  // ---- What a fork leaves as it was, and what it copies ----

  // Every frame in use keeps its role and its contents.
  ghost predicate UsedKept(s0: State, s: State) {
    forall f: nat {:trigger UsedFrameKept(s0, s, f)} :: f in s0.own ==> UsedFrameKept(s0, s, f)
  }

  ghost predicate UsedFrameKept(s0: State, s: State, f: nat)
    requires f in s0.own
  {
    !s0.own[f].Free? ==>
      f in s.own && s.own[f] == s0.own[f] && f in s.mem && f in s0.mem && s.mem[f] == s0.mem[f]
  }

  // Every address of every space keeps its translation and contents.
  ghost predicate NothingMoved(s0: State, s: State) {
    forall r: nat, i: nat, j: nat, k: nat {:trigger Unmoved(s0, s, r, i, j, k)} :: Indices(s0, r, i, j, k) ==>
      Unmoved(s0, s, r, i, j, k)
  }

  // Page v of root b is what it was of root a in s0, in another frame.
  ghost predicate PageOfOld(s0: State, s: State, a: nat, b: nat, v: nat) {
    && (Translate(s.mem, b, v).Some? <==> Translate(s0.mem, a, v).Some?)
    && (Translate(s0.mem, a, v).Some? ==>
      var d, e := Translate(s0.mem, a, v).value, Translate(s.mem, b, v).value;
      e.low == d.low && e.page != d.page && d.page in s0.mem && e.page in s.mem && s.mem[e.page] == s0.mem[d.page])
  }

  ghost predicate CopyOfOld(s0: State, s: State, a: nat, b: nat) {
    forall v: nat {:trigger PageOfOld(s0, s, a, b, v)} :: v < VIRTUAL_PAGES ==> PageOfOld(s0, s, a, b, v)
  }

  // Root b is planted on a frame that was free, and a tree is built under it.
  lemma PlantedAndGrown(s0: State, s1: State, s2: State, b: nat)
    requires Wf(s0) && s0.dead == {} && |s0.free| > 0 && b == s0.free[|s0.free| - 1]
    requires s1 == Plant(Take(s0), b) && Grown(s1, s2, b)
    ensures UsedKept(s0, s2)
  {
    assert Linked(s0, |s0.free| - 1);
    forall f: nat | f in s0.own ensures UsedFrameKept(s0, s2, f) {
      assert Managed(s0, f) && KeptOrTaken(s1, s2, b, f);
    }
  }

  lemma UsedKeptMovesNothing(s0: State, s: State)
    requires Wf(s0) && s0.dead == {} && UsedKept(s0, s)
    ensures NothingMoved(s0, s)
  {
    forall r: nat, i: nat, j: nat, k: nat | Indices(s0, r, i, j, k) ensures Unmoved(s0, s, r, i, j, k) {
      WalkOwned(s0, r, i, j, k);
      assert UsedFrameKept(s0, s, r);
      if UpperResident(Read(s0.mem, r, i)) {
        var p := Child(s0.mem, r, i);
        assert UsedFrameKept(s0, s, p);
        if UpperResident(Read(s0.mem, p, j)) {
          var t := Child(s0.mem, p, j);
          assert UsedFrameKept(s0, s, t);
          if PageResident(Read(s0.mem, t, k)) { assert UsedFrameKept(s0, s, Child(s0.mem, t, k)); }
        }
      }
    }
  }

  // Since nothing of a moved, the copy is one of what a was before.
  lemma CopyIsOfOld(s0: State, s: State, a: nat, b: nat)
    requires Wf(s) && s.dead == {} && UserRoots(s, a, b) && SubtreesCopied(s.mem, a, b, ROOT_ENTRIES)
    requires NothingMoved(s0, s) && IsRoot(s0, a) && a != s0.srp
    ensures CopyOfOld(s0, s, a, b)
  {
    forall v: nat | v < VIRTUAL_PAGES ensures PageOfOld(s0, s, a, b, v) {
      CopyTranslatesAlike(s, a, b, v);
      assert Unmoved(s0, s, a, RootIndex(v), PointerIndex(v), PageIndex(v));
    }
  }

  // ---- A child that could not be completed ----

  // Frame f is free in both states, or used for the same thing with the same
  // contents.
  ghost predicate Restored(s0: State, s: State, f: nat)
    requires f in s0.own && f in s.own
  {
    if s0.own[f].Free? then s.own[f].Free?
    else s.own[f] == s0.own[f] && f in s.mem && f in s0.mem && s.mem[f] == s0.mem[f]
  }

  // Creating root b, growing under it and releasing it again returns every
  // frame taken and disturbs no other.
  lemma UndoneChild(s0: State, s1: State, s2: State, s3: State, b: nat)
    requires Wf(s0) && s0.dead == {} && |s0.free| > 0 && b == s0.free[|s0.free| - 1]
    requires s1 == Plant(Take(s0), b) && Grown(s1, s2, b) && TreeGone(s2, s3, b, false)
    ensures s3.own.Keys == s0.own.Keys
    ensures forall f: nat {:trigger Restored(s0, s3, f)} :: f in s0.own ==> Restored(s0, s3, f)
  {
    assert Linked(s0, |s0.free| - 1);
    forall f | f in s0.own ensures Restored(s0, s3, f) {
      assert Managed(s0, f) && Up(s0, f);
      assert KeptOrTaken(s1, s2, b, f);
      assert GoneOrSame(s2, s3, b, false, f);
      if s0.own[f].Node? && s0.own[f].root == b { RootOfNode(s0, f); }
    }
  }

  // A node's root is a root table.
  lemma RootOfNode(st: State, f: nat)
    requires Wf(st) && f in st.own && st.own[f].Node?
    ensures IsRoot(st, st.own[f].root)
    decreases if st.own[f].Node? then st.own[f].level else 0
  {
    assert Up(st, f);
    if st.own[f].level > 0 { RootOfNode(st, st.own[f].parent); }
  }

  // ---- The mirror of the current user space ----

  // Entries 0..n-1 of the supervisor root are those of user root r; nothing
  // else changed.
  ghost predicate Mirrored(s0: State, s: State, r: nat, n: nat) {
    && s == State(s.mem, s0.own, s0.free, s0.dead, s0.srp)
    && s.mem.Keys == s0.mem.Keys
    && (forall f: nat {:trigger f in s.mem} :: f in s.mem && f != s0.srp ==> s.mem[f] == s0.mem[f])
    && (forall x: nat {:trigger Read(s.mem, s0.srp, x)} ::
      Read(s.mem, s0.srp, x) == if x < n then Read(s.mem, r, x) else Read(s0.mem, s0.srp, x))
  }

  lemma MirrorNothing(s: State, r: nat)
    ensures Mirrored(s, s, r, 0)
  {
  }

  lemma MirrorKeepsWf(st: State, x: nat, w: Word)
    requires Wf(st) && x < 96
    ensures Wf(Touch(st, st.srp, x, w)) && st.srp in st.mem
  {
    var s := Touch(st, st.srp, x, w);
    assert Managed(st, st.srp);
    forall g | g in s.own ensures Managed(s, g) { assert Managed(st, g); }
    forall g | g in s.own ensures Up(s, g) { assert Up(st, g); }
    forall p: nat, y: nat ensures Down(s, p, y) { assert Down(st, p, y); }
    forall n | 0 <= n < |s.free| ensures Linked(s, n) { assert Linked(st, n); }
  }

  lemma MirrorStep(s0: State, s: State, r: nat, x: nat)
    requires Wf(s) && Mirrored(s0, s, r, x) && x < 96 && r != s.srp
    ensures var s2 := Touch(s, s.srp, x, Read(s.mem, r, x)); Wf(s2) && Mirrored(s0, s2, r, x + 1)
  {
    MirrorKeepsWf(s, x, Read(s.mem, r, x));
    var s2 := Touch(s, s.srp, x, Read(s.mem, r, x));
    forall y: nat ensures Read(s2.mem, s0.srp, y) == if y < x + 1 then Read(s2.mem, r, y) else Read(s0.mem, s0.srp, y) {
      assert Read(s.mem, s0.srp, y) == if y < x then Read(s.mem, r, y) else Read(s0.mem, s0.srp, y);
    }
  }

  // In its lower 3 GB the supervisor sees what the current process sees.
  lemma MirrorTranslatesAlike(s0: State, s: State, r: nat, page: nat)
    requires Wf(s) && s.dead == {} && Mirrored(s0, s, r, 96) && IsRoot(s, r) && r != s.srp
    requires page < 0xC0000
    ensures Translate(s.mem, s.srp, page) == Translate(s.mem, r, page)
  {
    assert RootIndex(page) == page / 8192 < 96;
    assert Read(s.mem, s0.srp, RootIndex(page)) == Read(s.mem, r, RootIndex(page));
  }

  // The root table of a new space is none of the older ones.
  lemma PlantedRootIsNew(st: State, b: nat)
    requires Wf(st) && |st.free| > 0 && b == st.free[|st.free| - 1]
    ensures b in st.own && st.own[b].Free? && IsRoot(Plant(Take(st), b), b)
    ensures forall r: nat {:trigger IsRoot(st, r)} :: IsRoot(st, r) ==> r != b && IsRoot(Plant(Take(st), b), r)
  {
    assert Linked(st, |st.free| - 1);
  }

  lemma PlantingKeepsCost(st: State, b: nat, r: nat)
    requires Wf(st) && st.dead == {} && |st.free| > 0 && b == st.free[|st.free| - 1] && IsRoot(st, r) && r != st.srp
    ensures FramesFrom(Plant(Take(st), b).mem, r, 0) == FramesFrom(st.mem, r, 0)
  {
    var s := Plant(Take(st), b);
    assert Linked(st, |st.free| - 1);
    forall f | f in st.own ensures SameNode(st, s, r, f) { assert Managed(st, f); }
    FramesFromSame(st, s, r, 0);
  }

  // The frames of the tree of r are free; every other frame has its old role.
  ghost predicate Released(s0: State, s: State, r: nat) {
    && s.own.Keys == s0.own.Keys && s.srp == s0.srp
    && forall f: nat {:trigger ReleasedFrame(s0, s, r, f)} :: f in s0.own ==> ReleasedFrame(s0, s, r, f)
  }

  ghost predicate ReleasedFrame(s0: State, s: State, r: nat, f: nat)
    requires f in s0.own && f in s.own
  {
    if s0.own[f].Node? && s0.own[f].root == r then s.own[f].Free? else s.own[f] == s0.own[f]
  }

  lemma GoneIsReleased(s0: State, s: State, r: nat)
    requires TreeGone(s0, s, r, false)
    ensures Released(s0, s, r)
    ensures forall q: nat {:trigger IsRoot(s, q)} :: IsRoot(s0, q) && q != r ==> IsRoot(s, q)
  {
    forall f | f in s0.own ensures ReleasedFrame(s0, s, r, f) { assert GoneOrSame(s0, s, r, false, f); }
    forall q: nat | IsRoot(s0, q) && q != r ensures IsRoot(s, q) { assert GoneOrSame(s0, s, r, false, q); }
  }

  lemma ReleasedAfterMirror(s0: State, s1: State, s2: State, r: nat)
    requires s1.own == s0.own && s1.srp == s0.srp && Released(s1, s2, r)
    ensures Released(s0, s2, r)
  {
    forall f | f in s0.own ensures ReleasedFrame(s0, s2, r, f) { assert ReleasedFrame(s1, s2, r, f); }
  }

  // Process r ended while current: entries 0 to 95 of the supervisor root are what
  // those of root `next` were; every other frame but those of the tree of r
  // keeps its contents.
  ghost predicate SwitchedAndReleased(s0: State, s: State, r: nat, next: nat) {
    && Released(s0, s, r)
    && (forall x: nat {:trigger Read(s.mem, s0.srp, x)} :: x < 1024 ==>
      Read(s.mem, s0.srp, x) == if x < 96 then Read(s0.mem, next, x) else Read(s0.mem, s0.srp, x))
    && (forall f: nat {:trigger SameOutside(s0, s, r, f)} :: f in s0.own && f != s0.srp ==> SameOutside(s0, s, r, f))
  }

  ghost predicate SameOutside(s0: State, s: State, r: nat, f: nat)
    requires f in s0.own
  {
    !(s0.own[f].Node? && s0.own[f].root == r) ==> f in s.mem && f in s0.mem && s.mem[f] == s0.mem[f]
  }

  lemma ReleasedAfterSwitch(s0: State, s1: State, s2: State, r: nat, next: nat)
    requires Wf(s0) && Mirrored(s0, s1, next, 96) && TreeGone(s1, s2, r, false)
    requires IsRoot(s0, r) && r != s0.srp && next != s0.srp
    ensures SwitchedAndReleased(s0, s2, r, next)
  {
    GoneIsReleased(s1, s2, r);
    forall f | f in s0.own ensures ReleasedFrame(s0, s2, r, f) { assert ReleasedFrame(s1, s2, r, f); }
    assert GoneOrSame(s1, s2, r, false, s0.srp);
    forall x: nat | x < 1024
      ensures Read(s2.mem, s0.srp, x) == if x < 96 then Read(s0.mem, next, x) else Read(s0.mem, s0.srp, x)
    {
      assert Read(s1.mem, s0.srp, x) == if x < 96 then Read(s1.mem, next, x) else Read(s0.mem, s0.srp, x);
      assert next in s1.mem <==> next in s0.mem;
    }
    forall f: nat | f in s0.own && f != s0.srp ensures SameOutside(s0, s2, r, f) {
      assert GoneOrSame(s1, s2, r, false, f);
      assert IsRoot(s0, r);
    }
  }

  lemma GrownKeepsRoots(s0: State, s1: State, b: nat)
    requires Grown(s0, s1, b)
    ensures forall r: nat {:trigger IsRoot(s1, r)} :: IsRoot(s0, r) ==> IsRoot(s1, r)
  {
    forall r: nat | IsRoot(s0, r) ensures IsRoot(s1, r) { assert KeptOrTaken(s0, s1, b, r); }
  }
}
