// Path names: how the resolver cuts them, and what it does with the parts.
module Paths {
  import opened Bytes
  import opened Errno
  import opened RomfsFormat
  import opened RomfsTree

  const SLASH: Byte := 0x2F

  // ---- Cutting ----

  // The length of the component a string starts with.
  function NameLength(s: seq<Byte>, i: nat): (n: nat)
    requires i <= |s| && i <= NAME_MAX
    ensures i <= n <= |s| && n <= NAME_MAX
    ensures SLASH !in s[i..n]
    ensures n == |s| || n == NAME_MAX || s[n] == SLASH
    decreases |s| - i
  {
    if i < |s| && i < NAME_MAX && s[i] != SLASH then NameLength(s, i + 1) else i
  }

  function Component(s: seq<Byte>): seq<Byte> { s[..NameLength(s, 0)] }

  // What is left after the component and the character that ends it.
  function After(s: seq<Byte>): (t: seq<Byte>)
    ensures |s| > 0 ==> |t| < |s|
  {
    var n := NameLength(s, 0);
    if n < |s| then s[n + 1..] else []
  }

  function SkipSlashes(s: seq<Byte>): (t: seq<Byte>)
    ensures |t| <= |s|
  {
    if |s| > 0 && s[0] == SLASH then SkipSlashes(s[1..]) else s
  }

  function Split(s: seq<Byte>): (cs: seq<seq<Byte>>)
    decreases |s|
  {
    if |s| == 0 then [] else [Component(s)] + Split(After(s))
  }

  // The components of an absolute path, without its first slash. Only after the
  // first component are further slashes skipped.
  function Components(s: seq<Byte>): (cs: seq<seq<Byte>>)
    ensures |cs| > 0
  {
    [Component(s)] + Split(SkipSlashes(After(s)))
  }

  ghost predicate Plain(name: seq<Byte>) { SLASH !in name && 0 !in name && 0 < |name| < NAME_MAX }

  function Join(names: seq<seq<Byte>>): seq<Byte> {
    if |names| == 0 then [] else if |names| == 1 then names[0] else names[0] + [SLASH] + Join(names[1..])
  }

  lemma PlainName(name: seq<Byte>, rest: seq<Byte>, i: nat)
    requires Plain(name) && i <= |name|
    ensures NameLength(name + [SLASH] + rest, i) == |name| && NameLength(name, i) == |name|
    decreases |name| - i
  {
    if i < |name| {
      assert (name + [SLASH] + rest)[i] == name[i] && name[i] in name;
      PlainName(name, rest, i + 1);
    }
  }

  ghost predicate AllPlain(names: seq<seq<Byte>>) {
    forall k: nat {:trigger names[k]} :: k < |names| ==> Plain(names[k])
  }

  // The first cut of joined names.
  lemma FirstCut(names: seq<seq<Byte>>, end: seq<Byte>)
    requires |names| > 0 && AllPlain(names) && (end == [] || end == [SLASH])
    ensures |Join(names) + end| > 0 && Component(Join(names) + end) == names[0]
    ensures After(Join(names) + end) == if |names| == 1 then [] else Join(names[1..]) + end
  {
    var s := Join(names) + end;
    if |names| == 1 {
      PlainName(names[0], [], 0);
      assert names[0] + [SLASH] + [] == names[0] + [SLASH];
      assert s == if end == [] then names[0] else names[0] + [SLASH];
    } else {
      var rest := Join(names[1..]) + end;
      assert s == names[0] + [SLASH] + rest;
      PlainName(names[0], rest, 0);
    }
  }

  // Plain names joined with slashes, one more at the end or not, are cut into the same names.
  lemma {:induction false} SplitJoin(names: seq<seq<Byte>>, end: seq<Byte>)
    requires |names| > 0 && AllPlain(names) && (end == [] || end == [SLASH])
    ensures Split(Join(names) + end) == names
  {
    hide Join, Component, After, Plain;
    FirstCut(names, end);
    if |names| == 1 {
      assert Split([]) == [];
    } else {
      SplitJoin(names[1..], end);
    }
  }

  lemma NoSlashToSkip(names: seq<seq<Byte>>, end: seq<Byte>)
    requires |names| > 0 && AllPlain(names)
    ensures SkipSlashes(Join(names) + end) == Join(names) + end
  {
    assert (Join(names) + end)[0] == names[0][0] && names[0][0] in names[0];
  }

  lemma ComponentsJoin(names: seq<seq<Byte>>, end: seq<Byte>)
    requires |names| > 0 && AllPlain(names) && (end == [] || end == [SLASH])
    ensures Components(Join(names) + end) == names
  {
    hide Join, Component, After, Plain;
    FirstCut(names, end);
    if |names| == 1 {
      assert Split([]) == [];
    } else {
      NoSlashToSkip(names[1..], end);
      SplitJoin(names[1..], end);
    }
  }

  // ---- Walking ----

  datatype MountPoint = MountPoint(used: bool, dev: nat, inode: nat, fs: nat, instance: nat, root: nat, openFiles: int)

  // A file system's answer: its number, the instance, a directory's inode, a name.
  type Lookup = (nat, nat, nat, seq<Byte>) -> Reply

  // The first mount point in use on an inode, the number of mount points if none.
  function MountOn(mounts: seq<MountPoint>, dev: nat, inode: nat): (i: nat)
    ensures i <= |mounts|
    ensures i < |mounts| ==> mounts[i].used && mounts[i].dev == dev && mounts[i].inode == inode
    ensures forall k: nat {:trigger mounts[k]} :: k < i ==>
      !(mounts[k].used && mounts[k].dev == dev && mounts[k].inode == inode)
  {
    if |mounts| == 0 || (mounts[0].used && mounts[0].dev == dev && mounts[0].inode == inode) then 0
    else 1 + MountOn(mounts[1..], dev, inode)
  }

  datatype Resolved = At(mp: nat, inode: nat) | Error(errno: nat)

  // From a directory of a mounted file system along the components: cross to the
  // mounted root wherever one that is not the last is a mount point.
  function Walk(lookup: Lookup, mounts: seq<MountPoint>, mp: nat, dir: nat, cs: seq<seq<Byte>>): Resolved
    requires mp < |mounts| && |cs| > 0
    decreases |cs|
  {
    match lookup(mounts[mp].fs, mounts[mp].instance, dir, cs[0])
    case Fail(e) => Error(e)
    case Ok(st) =>
      if |cs| == 1 then At(mp, st.ino)
      else
        var i := MountOn(mounts, st.dev, st.ino);
        if i < |mounts| then Walk(lookup, mounts, i, mounts[i].root, cs[1..])
        else if TypeOf(st.mode) == S_IFDIR then Walk(lookup, mounts, mp, st.ino, cs[1..])
        else Error(ENOTDIR)
  }

  const NOWHERE := 0xFFFF_FFFF

  // What the path means.
  function Meaning(lookup: Lookup, mounts: seq<MountPoint>, path: seq<Byte>, link: nat): Resolved {
    var i := MountOn(mounts, NOWHERE, NOWHERE);
    if link >= 32 then Error(EMLINK)
    else if |path| == 0 then Error(EINVAL)
    else if path[0] != SLASH || i == |mounts| then Error(ENOENT)
    else Walk(lookup, mounts, i, 0, Components(path[1..]))
  }

  // Some file system is mounted as root.
  ghost predicate HasRoot(mounts: seq<MountPoint>) {
    exists k: nat {:trigger mounts[k]} ::
      k < |mounts| && mounts[k].used && mounts[k].dev == 0xFFFF_FFFF && mounts[k].inode == 0xFFFF_FFFF
  }

  // What is refused before any lookup, and with which error; only an absolute
  // path gets further.
  lemma Refusals(lookup: Lookup, mounts: seq<MountPoint>, path: seq<Byte>, link: nat)
    ensures var m := Meaning(lookup, mounts, path, link);
      && (link >= 32 ==> m == Error(31))
      && (link < 32 && |path| == 0 ==> m == Error(22))
      && (link < 32 && |path| > 0 && (path[0] as char != '/' || !HasRoot(mounts)) ==> m == Error(2))
      && (m.At? ==> link < 32 && |path| > 0 && path[0] as char == '/' && HasRoot(mounts))
  {
    var i := MountOn(mounts, NOWHERE, NOWHERE);
    assert HasRoot(mounts) <==> i < |mounts|;
  }

  // ---- Paths in one volume ----

  // The node a list of names denotes in a tree.
  function Follow(v: Volume, n: Node, names: seq<seq<Byte>>): Answer
    requires |names| > 0
    decreases |names|
  {
    match Step(v, n, names[0])
    case Missing(e) => Missing(e)
    case Found(m) =>
      if |names| == 1 then Found(m)
      else if NodeType(m) == S_IFDIR then Follow(v, m, names[1..])
      else Missing(ENOTDIR)
  }

  // Names are followed in two goes, if the first ends at a directory.
  lemma {:induction false} FollowOn(v: Volume, n: Node, first: seq<seq<Byte>>, rest: seq<seq<Byte>>)
    requires |first| > 0 && |rest| > 0
    ensures Follow(v, n, first + rest) ==
      match Follow(v, n, first)
      case Missing(e) => Missing(e)
      case Found(m) => if NodeType(m) == S_IFDIR then Follow(v, m, rest) else Missing(ENOTDIR)
    decreases |first|
  {
    assert (first + rest)[1..] == first[1..] + rest;
    var a := Step(v, n, first[0]);
    if a.Found? && |first| == 1 {
      assert first[1..] + rest == rest;
    } else if a.Found? && NodeType(a.node) == S_IFDIR {
      FollowOn(v, a.node, first[1..], rest);
    }
  }

  // No path leads on through a hard link, which . and .. below the root are.
  lemma HardLinkEndsPath(v: Volume, n: Node, first: seq<seq<Byte>>, rest: seq<seq<Byte>>)
    requires |first| > 0 && |rest| > 0 && Follow(v, n, first).Found? && NodeKind(Follow(v, n, first).node) == HARD_LINK
    ensures Follow(v, n, first + rest) == Missing(ENOTDIR)
  {
    FollowOn(v, n, first, rest);
  }

  // The reply of a file system to a list of names, no mount point considered.
  function Within(lookup: Lookup, fs: nat, instance: nat, dir: nat, names: seq<seq<Byte>>): Reply
    requires |names| > 0
    decreases |names|
  {
    match lookup(fs, instance, dir, names[0])
    case Fail(e) => Fail(e)
    case Ok(st) =>
      if |names| == 1 then Ok(st)
      else if TypeOf(st.mode) == S_IFDIR then Within(lookup, fs, instance, st.ino, names[1..])
      else Fail(ENOTDIR)
  }

  // Nothing is mounted on what the names lead through, before the last one.
  ghost predicate Uncovered(lookup: Lookup, mounts: seq<MountPoint>, fs: nat, instance: nat, dir: nat,
      names: seq<seq<Byte>>)
    requires |names| > 0
    decreases |names|
  {
    var r := lookup(fs, instance, dir, names[0]);
    |names| > 1 && r.Ok? ==>
      && MountOn(mounts, r.st.dev, r.st.ino) == |mounts|
      && (TypeOf(r.st.mode) == S_IFDIR ==> Uncovered(lookup, mounts, fs, instance, r.st.ino, names[1..]))
  }

  lemma {:induction false} WalkWithin(lookup: Lookup, mounts: seq<MountPoint>, mp: nat, dir: nat, names: seq<seq<Byte>>)
    requires mp < |mounts| && |names| > 0 && Uncovered(lookup, mounts, mounts[mp].fs, mounts[mp].instance, dir, names)
    ensures Walk(lookup, mounts, mp, dir, names) ==
      match Within(lookup, mounts[mp].fs, mounts[mp].instance, dir, names)
      case Fail(e) => Error(e)
      case Ok(st) => At(mp, st.ino)
    decreases |names|
  {
    var r := lookup(mounts[mp].fs, mounts[mp].instance, dir, names[0]);
    if |names| > 1 && r.Ok? && TypeOf(r.st.mode) == S_IFDIR {
      WalkWithin(lookup, mounts, mp, r.st.ino, names[1..]);
    }
  }

  // Where the first names lead to a mount point, the walk goes on in the
  // mounted root.
  lemma {:induction false} WalkCrosses(lookup: Lookup, mounts: seq<MountPoint>, mp: nat, dir: nat,
      first: seq<seq<Byte>>, rest: seq<seq<Byte>>)
    requires mp < |mounts| && |first| > 0 && |rest| > 0
    requires Uncovered(lookup, mounts, mounts[mp].fs, mounts[mp].instance, dir, first)
    requires var r := Within(lookup, mounts[mp].fs, mounts[mp].instance, dir, first);
      r.Ok? && MountOn(mounts, r.st.dev, r.st.ino) < |mounts|
    ensures var st := Within(lookup, mounts[mp].fs, mounts[mp].instance, dir, first).st;
      var i := MountOn(mounts, st.dev, st.ino);
      Walk(lookup, mounts, mp, dir, first + rest) == Walk(lookup, mounts, i, mounts[i].root, rest)
    decreases |first|
  {
    assert (first + rest)[1..] == first[1..] + rest;
    var r := lookup(mounts[mp].fs, mounts[mp].instance, dir, first[0]);
    if |first| == 1 {
      assert first[1..] + rest == rest;
    } else {
      WalkCrosses(lookup, mounts, mp, r.st.ino, first[1..], rest);
    }
  }

  // The lookup function answers for a volume.
  ghost predicate AnswersAt(lookup: Lookup, fs: nat, instance: nat, dev: nat, img: seq<Byte>, root: nat, v: Volume,
      ino: nat, n: Node, name: seq<Byte>) {
    NodeAt(img, root, ino, n) && 0 !in name ==>
      Answered(img, root, dev, v, Step(v, n, name), lookup(fs, instance, ino, name))
  }

  ghost predicate Answers(lookup: Lookup, fs: nat, instance: nat, dev: nat, img: seq<Byte>, root: nat, v: Volume) {
    forall ino: nat, n: Node, name: seq<Byte>
      {:trigger AnswersAt(lookup, fs, instance, dev, img, root, v, ino, n, name)} ::
      AnswersAt(lookup, fs, instance, dev, img, root, v, ino, n, name)
  }

  ghost predicate AllStrings(names: seq<seq<Byte>>) {
    forall k: nat {:trigger names[k]} :: k < |names| ==> 0 !in names[k]
  }

  // In a volume the replies follow the tree.
  lemma {:induction false} WithinFollows(lookup: Lookup, fs: nat, instance: nat, dir: nat, names: seq<seq<Byte>>,
      dev: nat, img: seq<Byte>, root: nat, v: Volume, n: Node)
    requires |names| > 0 && AllStrings(names) && Answers(lookup, fs, instance, dev, img, root, v)
    requires NodeAt(img, root, dir, n)
    ensures Answered(img, root, dev, v, Follow(v, n, names), Within(lookup, fs, instance, dir, names))
    decreases |names|
  {
    hide NodeAt;
    assert AnswersAt(lookup, fs, instance, dev, img, root, v, dir, n, names[0]);
    var r := lookup(fs, instance, dir, names[0]);
    if r.Ok? && |names| > 1 && TypeOf(r.st.mode) == S_IFDIR {
      WithinFollows(lookup, fs, instance, r.st.ino, names[1..], dev, img, root, v, Step(v, n, names[0]).node);
    }
  }

  // No mount point in use lies on the device.
  ghost predicate Bare(mounts: seq<MountPoint>, dev: nat) {
    forall k: nat {:trigger mounts[k]} :: k < |mounts| && mounts[k].used ==> mounts[k].dev != dev
  }

  lemma {:induction false} BareIsUncovered(lookup: Lookup, mounts: seq<MountPoint>, fs: nat, instance: nat, dir: nat,
      names: seq<seq<Byte>>,
      dev: nat, img: seq<Byte>, root: nat, v: Volume, n: Node)
    requires |names| > 0 && AllStrings(names) && Answers(lookup, fs, instance, dev, img, root, v)
    requires NodeAt(img, root, dir, n)
    requires Bare(mounts, dev)
    ensures Uncovered(lookup, mounts, fs, instance, dir, names)
    decreases |names|
  {
    hide NodeAt;
    assert AnswersAt(lookup, fs, instance, dev, img, root, v, dir, n, names[0]);
    var r := lookup(fs, instance, dir, names[0]);
    if r.Ok? && |names| > 1 && TypeOf(r.st.mode) == S_IFDIR {
      BareIsUncovered(lookup, mounts, fs, instance, r.st.ino, names[1..], dev, img, root, v, Step(v, n, names[0]).node);
    }
  }

  ghost predicate Agrees(img: seq<Byte>, root: nat, mp: nat, r: Resolved, a: Answer) {
    match a
    case Missing(e) => r == Error(e)
    case Found(m) => r.At? && r.mp == mp && NodeAt(img, root, r.inode, m)
  }

  // Nothing mounted on the way: the walk follows the tree.
  lemma WalkFollows(lookup: Lookup, mounts: seq<MountPoint>, mp: nat, dir: nat, names: seq<seq<Byte>>,
      dev: nat, img: seq<Byte>, root: nat, v: Volume, n: Node)
    requires mp < |mounts| && |names| > 0 && AllStrings(names) && NodeAt(img, root, dir, n)
    requires Answers(lookup, mounts[mp].fs, mounts[mp].instance, dev, img, root, v)
    requires Uncovered(lookup, mounts, mounts[mp].fs, mounts[mp].instance, dir, names)
    ensures Agrees(img, root, mp, Walk(lookup, mounts, mp, dir, names), Follow(v, n, names))
  {
    hide NodeAt, Walk, Within, Follow, Uncovered;
    WalkWithin(lookup, mounts, mp, dir, names);
    WithinFollows(lookup, mounts[mp].fs, mounts[mp].instance, dir, names, dev, img, root, v, n);
  }

  lemma PlainAreStrings(names: seq<seq<Byte>>)
    requires AllPlain(names)
    ensures AllStrings(names)
  {
    forall k: nat {:trigger names[k]} | k < |names| ensures 0 !in names[k] { assert Plain(names[k]); }
  }

  lemma MeaningOfNames(lookup: Lookup, mounts: seq<MountPoint>, names: seq<seq<Byte>>, end: seq<Byte>)
    requires |names| > 0 && AllPlain(names) && (end == [] || end == [SLASH])
    requires MountOn(mounts, NOWHERE, NOWHERE) < |mounts|
    ensures Meaning(lookup, mounts, [SLASH] + Join(names) + end, 0) ==
      Walk(lookup, mounts, MountOn(mounts, NOWHERE, NOWHERE), 0, names)
  {
    hide Join, Components, Walk, Plain, AllPlain;
    var path := [SLASH] + Join(names) + end;
    assert path[1..] == Join(names) + end;
    ComponentsJoin(names, end);
  }

  // A path of plain names denotes the node that the names denote in the tree of
  // the volume mounted as root, or fails as they do.
  lemma PathDenotesNode(lookup: Lookup, mounts: seq<MountPoint>, names: seq<seq<Byte>>, end: seq<Byte>, dev: nat,
      img: seq<Byte>, root: nat, v: Volume)
    requires |names| > 0 && AllPlain(names) && (end == [] || end == [SLASH])
    requires MountOn(mounts, NOWHERE, NOWHERE) < |mounts|
    requires var i := MountOn(mounts, NOWHERE, NOWHERE);
      && Answers(lookup, mounts[i].fs, mounts[i].instance, dev, img, root, v)
      && Uncovered(lookup, mounts, mounts[i].fs, mounts[i].instance, 0, names)
    ensures var meaning := Meaning(lookup, mounts, [SLASH] + Join(names) + end, 0);
      Agrees(img, root, MountOn(mounts, NOWHERE, NOWHERE), meaning, Follow(v, Root, names))
  {
    hide Meaning, Walk, Follow, Plain, Agrees, Answers, Uncovered;
    MeaningOfNames(lookup, mounts, names, end);
    PlainAreStrings(names);
    WalkFollows(lookup, mounts, MountOn(mounts, NOWHERE, NOWHERE), 0, names, dev, img, root, v, Root);
  }

  // A second volume is mounted on the node that the first names denote in the
  // root volume: the other names are followed in the second tree.
  lemma PathCrosses(lookup: Lookup, mounts: seq<MountPoint>, first: seq<seq<Byte>>, rest: seq<seq<Byte>>,
      end: seq<Byte>, i: nat, b: nat,
      dev: nat, img: seq<Byte>, root: nat, v: Volume)
    requires |first| > 0 && |rest| > 0 && AllPlain(first + rest) && (end == [] || end == [SLASH])
    requires i == MountOn(mounts, NOWHERE, NOWHERE) < |mounts| && b < |mounts| && mounts[b].root == 0
    requires Uncovered(lookup, mounts, mounts[i].fs, mounts[i].instance, 0, first)
    requires var r := Within(lookup, mounts[i].fs, mounts[i].instance, 0, first);
      r.Ok? && MountOn(mounts, r.st.dev, r.st.ino) == b
    requires Answers(lookup, mounts[b].fs, mounts[b].instance, dev, img, root, v)
    requires Uncovered(lookup, mounts, mounts[b].fs, mounts[b].instance, 0, rest)
    ensures Agrees(img, root, b, Meaning(lookup, mounts, [SLASH] + Join(first + rest) + end, 0), Follow(v, Root, rest))
  {
    hide Meaning, Walk, Follow, Plain, Agrees, Answers, Uncovered, Within;
    MeaningOfNames(lookup, mounts, first + rest, end);
    WalkCrosses(lookup, mounts, i, 0, first, rest);
    PlainAreStrings(first + rest);
    forall k: nat {:trigger rest[k]} | k < |rest|
      ensures 0 !in rest[k] { assert (first + rest)[|first| + k] == rest[k]; }
    WalkFollows(lookup, mounts, b, 0, rest, dev, img, root, v, Root);
  }
}
