// What an image says: the nodes of its tree, and the driver's answers as
// functions of the image.
module RomfsTree {
  import opened Bytes
  import opened Errno
  import opened RomfsFormat

  const BLOCK_SIZE := 512

  // ---- What the tree says ----

  // A place in a volume: its root, or an entry below it.
  datatype Node = Root | Inner(entry: Entry)

  datatype Answer = Found(node: Node) | Missing(errno: nat)

  function InList(es: seq<Entry>, name: seq<Byte>): Answer {
    if |es| == 0 then Missing(ENOENT)
    else if es[0].name == name then Found(Inner(es[0]))
    else InList(es[1..], name)
  }

  // The node that a name denotes at a node. The empty name denotes the node
  // itself, and the root's own name the root.
  function Step(v: Volume, n: Node, name: seq<Byte>): Answer {
    if name == [] then Found(n)
    else match n
      case Root => if name == v.rootName then Found(Root) else InList(v.entries, name)
      case Inner(e) => if e.body.Dir? then InList(e.body.entries, name) else Missing(ENOTDIR)
  }

  // An entry that is found is the first of that name; a name not found is on no entry.
  lemma {:induction false} InListFinds(es: seq<Entry>, name: seq<Byte>)
    ensures InList(es, name) == Missing(ENOENT) <==> forall k: nat :: k < |es| ==> es[k].name != name
    ensures InList(es, name) != Missing(ENOENT) ==>
      exists k: nat :: k < |es| && es[k].name == name && InList(es, name) == Found(Inner(es[k])) && forall m: nat ::
        m < k ==> es[m].name != name
  {
    if |es| > 0 && es[0].name != name {
      InListFinds(es[1..], name);
      assert forall k: nat :: k < |es| - 1 ==> es[k + 1] == es[1..][k];
      if InList(es, name) != Missing(ENOENT) {
        var k: nat :| k < |es[1..]| && es[1..][k].name == name && InList(es[1..], name) == Found(Inner(es[1..][k]))
          && forall m: nat :: m < k ==> es[1..][m].name != name;
        assert es[k + 1].name == name && forall m: nat :: m < k + 1 ==> es[m].name != name by {
          forall m: nat | m < k + 1 ensures es[m].name != name { assert m > 0 ==> es[m] == es[1..][m - 1]; }
        }
      }
    }
  }

  // ---- Modes ----

  const S_IFIFO := 0x1000
  const S_IFCHR := 0x2000
  const S_IFDIR := 0x4000
  const S_IFBLK := 0x6000
  const S_IFREG := 0x8000
  const S_IFLNK := 0xA000
  const S_IFSOCK := 0xC000
  const READ_ALL := 0x124
  const EXEC_ALL := 0x49

  // The file type bits of a mode.
  function TypeOf(mode: nat): nat { mode / 0x1000 * 0x1000 }

  // The mode for a header's flags, and the device number if it is a device.
  function ByteToMode(flags: Byte, special: nat, rdev: nat): (nat, nat) {
    var kind := flags % 8;
    var device := special / 0x1_0000 % 0x1_0000 * 0x1_0000 + special % 0x1_0000;
    var mode :=
      if kind == 1 then S_IFDIR + READ_ALL
      else if kind == 2 then S_IFREG + READ_ALL
      else if kind == 3 then S_IFLNK + READ_ALL
      else if kind == 4 then S_IFBLK
      else if kind == 5 then S_IFCHR
      else if kind == 6 then S_IFSOCK + READ_ALL
      else S_IFIFO + READ_ALL;
    (if flags / 8 % 2 == 1 then mode + EXEC_ALL else mode, if kind == 4 || kind == 5 then device else rdev)
  }

  // The type a node has for its users; a hard link reads as a pipe.
  function KindType(kind: nat): nat {
    if kind == DIRECTORY then S_IFDIR else if kind == REGULAR then S_IFREG else if kind == 3 then S_IFLNK
    else if kind == 4 then S_IFBLK else if kind == 5 then S_IFCHR else if kind == 6 then S_IFSOCK else S_IFIFO
  }

  function NodeType(n: Node): nat {
    match n
    case Root => S_IFDIR
    case Inner(e) => KindType(Kind(e.body))
  }

  function NodeKind(n: Node): nat {
    match n
    case Root => DIRECTORY
    case Inner(e) => Kind(e.body)
  }

  function NodeExec(v: Volume, n: Node): bool {
    match n
    case Root => v.rootExec
    case Inner(e) => e.exec
  }

  predicate IsDevice(kind: nat) { kind == 4 || kind == 5 }

  // Everyone may read all but devices; the executable bit is for everyone too.
  function ModeFor(kind: nat, exec: bool): nat {
    KindType(kind) + (if IsDevice(kind) then 0 else READ_ALL) + (if exec then EXEC_ALL else 0)
  }

  // The modes, kind by kind: 0444 for all but devices, and 0111 if executable.
  lemma ModeTable(flags: Byte, special: nat, rdev: nat)
    ensures ByteToMode(flags, special, rdev).0 ==
      [0x1124, 0x4124, 0x8124, 0xA124, 0x6000, 0x2000, 0xC124, 0x1124][flags % 8]
      + if flags / 8 % 2 == 1 then 0x49 else 0
  {
    assert flags % 8 in [0, 1, 2, 3, 4, 5, 6, 7];
  }

  lemma ModeTells(flags: Byte, special: nat, rdev: nat)
    requires special < 0x1_0000_0000
    ensures var kind, exec := flags % 8, flags / 8 % 2 == 1;
      && ByteToMode(flags, special, rdev) == (ModeFor(kind, exec), if IsDevice(kind) then special else rdev)
      && TypeOf(ByteToMode(flags, special, rdev).0) == KindType(kind)
  {
    Halves(special);
  }

  lemma Halves(x: nat)
    requires x < 0x1_0000_0000
    ensures x / 0x1_0000 % 0x1_0000 * 0x1_0000 + x % 0x1_0000 == x
  {
    assert x / 0x1_0000 < 0x1_0000;
  }

  // ---- Nodes in an image ----

  datatype Stat = Stat(dev: nat, ino: nat, mode: nat, rdev: nat, size: nat, blocks: nat)

  // The inode of a node, counted from the root's.
  ghost predicate NodeAt(img: seq<Byte>, root: nat, ino: nat, n: Node) {
    match n
    case Root => ino == 0
    case Inner(e) => ino != 0 && HeaderAt(img, root, root + ino, e)
  }

  // What stat reports of a node.
  ghost predicate Describes(v: Volume, n: Node, st: Stat) {
    && st.mode == ModeFor(NodeKind(n), NodeExec(v, n)) && TypeOf(st.mode) == NodeType(n)
    && st.rdev == (if n.Inner? && n.entry.body.Other? && IsDevice(NodeKind(n)) then n.entry.body.special else 0)
    && (n.Inner? && !n.entry.body.Dir? ==> st.size == Length(n.entry.body))
    && st.blocks == (st.size + BLOCK_SIZE - 1) / BLOCK_SIZE
  }

  // ---- Directories ----

  function Nodes(atRoot: bool, es: seq<Entry>): seq<Node> {
    (if atRoot then [Root] else []) + seq(|es|, k requires 0 <= k < |es| => Inner(es[k]))
  }

  lemma NodesStep(v: Volume, atRoot: bool, es: seq<Entry>)
    ensures |Nodes(atRoot, es)| == |es| + if atRoot then 1 else 0
    ensures |Nodes(atRoot, es)| > 0 ==>
      && Nodes(atRoot, es)[0] == (if atRoot then Root else Inner(es[0]))
      && NodeName(v, Nodes(atRoot, es)[0]) == HeadName(v, atRoot, es)
      && Nodes(atRoot, es)[1..] == Nodes(false, if atRoot then es else es[1..])
  {
  }

  // What a directory lists; the root lists itself first.
  function Listing(v: Volume, n: Node): seq<Node> {
    if n.Root? then Nodes(true, v.entries) else if n.entry.body.Dir? then Nodes(false, n.entry.body.entries) else []
  }

  function NodeName(v: Volume, n: Node): seq<Byte> {
    match n
    case Root => v.rootName
    case Inner(e) => e.name
  }

  // What the header of a node says, and where a directory's chain starts.
  lemma NodeHeader(img: seq<Byte>, root: nat, ino: nat, v: Volume, n: Node)
    requires RootAt(img, root, v) && NodeAt(img, root, ino, n)
    ensures InImage(img, root + ino)
    ensures n.Root? ==> ino == 0 && Chain(img, root, root, v, true, v.entries)
    ensures n.Inner? ==> ino != 0 && (FlagsOf(img, root + ino) % 8 == 1 <==> n.entry.body.Dir?)
    ensures n.Inner? && n.entry.body.Dir? ==>
      Chain(img, root, SpecialOf(img, root + ino) / 16, v, false, n.entry.body.entries)
  {
  }

  // The chain from header i: the root's own header and the root's entries, or
  // the entries of a directory.
  ghost predicate Chain(img: seq<Byte>, root: nat, i: nat, v: Volume, atRoot: bool, es: seq<Entry>) {
    if atRoot then i == root && es == v.entries && RootAt(img, root, v) else ListAt(img, root, i, es)
  }

  function HeadName(v: Volume, atRoot: bool, es: seq<Entry>): seq<Byte> {
    if atRoot then v.rootName else if |es| > 0 then es[0].name else []
  }

  lemma ChainHead(img: seq<Byte>, root: nat, i: nat, v: Volume, atRoot: bool, es: seq<Entry>)
    requires Chain(img, root, i, v, atRoot, es) && i != 0
    ensures (atRoot || |es| > 0) && i >= root && InImage(img, i)
    ensures NameOk(HeadName(v, atRoot, es)) && NameAt(img, UNIT * i + UNIT, HeadName(v, atRoot, es))
    ensures NodeAt(img, root, i - root, if atRoot then Root else Inner(es[0]))
    ensures Chain(img, root, NextOf(img, i), v, false, if atRoot then es else es[1..])
  {
    if !atRoot { assert HeaderAt(img, root, i, es[0]); }
  }

  lemma ChainEnd(img: seq<Byte>, root: nat, i: nat, v: Volume, es: seq<Entry>)
    requires Chain(img, root, i, v, false, es)
    ensures i == 0 <==> |es| == 0
  {
    if |es| > 0 { assert HeaderAt(img, root, i, es[0]); }
  }

  lemma ChainStart(img: seq<Byte>, root: nat, i: nat, v: Volume, atRoot: bool, es: seq<Entry>)
    requires Chain(img, root, i, v, atRoot, es)
    ensures i == 0 <==> !atRoot && |es| == 0
  {
    if !atRoot { ChainEnd(img, root, i, v, es); }
  }

  function Pick(v: Volume, atRoot: bool, es: seq<Entry>, name: seq<Byte>): Answer {
    if atRoot && name == v.rootName then Found(Root) else InList(es, name)
  }

  // ---- Files ----

  // The block of 16 bytes that ends a name, as the scan finds it.
  function NameBlock(name: seq<Byte>): nat { if |name| / 16 < 16 then |name| / 16 else 16 }

  // The scan finds where the data begins exactly for names below 272 bytes.
  lemma NameBlockIs(name: seq<Byte>)
    ensures NameBlock(name) + 1 == Units(|name| + 1) <==> |name| < 272
  {
  }

  lemma FileBytes(img: seq<Byte>, root: nat, i: nat, e: Entry)
    requires HeaderAt(img, root, i, e) && !e.body.Dir?
    ensures InImage(img, i) && NameOk(e.name) && NameAt(img, UNIT * i + UNIT, e.name)
    ensures SizeOf(img, i) == |e.body.data| && BytesAt(img, UNIT * ContentOf(i, e.name), e.body.data)
  {
  }

  // ---- The answers as functions of the image ----

  datatype Reply = Ok(st: Stat) | Fail(errno: nat)

  datatype Data = Got(bytes: seq<Byte>) | Bad(errno: nat)

  // What stat_inode answers for a header in the image.
  function StatAt(img: seq<Byte>, root: nat, dev: nat, ino: nat): Reply {
    if !InImage(img, root + ino) then Fail(EIO)
    else
      var i := root + ino;
      var (mode, rdev) := ByteToMode(FlagsOf(img, i), SpecialOf(img, i), 0);
      Ok(Stat(dev, ino, mode, rdev, SizeOf(img, i), (SizeOf(img, i) + BLOCK_SIZE - 1) / BLOCK_SIZE))
  }

  // The first header of that name in the chain from i, 0 if none within `fuel` headers.
  function FindFrom(img: seq<Byte>, i: nat, name: seq<Byte>, fuel: nat): nat
    decreases fuel
  {
    if fuel == 0 || i == 0 || !InImage(img, i) then 0
    else if NameAt(img, UNIT * i + UNIT, name) then i
    else FindFrom(img, NextOf(img, i), name, fuel - 1)
  }

  // What stat answers for a name at an inode.
  function LookupAt(img: seq<Byte>, root: nat, dev: nat, ino: nat, name: seq<Byte>): Reply {
    if !InImage(img, root + ino) then Fail(EIO)
    else if name == [] then StatAt(img, root, dev, ino)
    else if ino != 0 && FlagsOf(img, root + ino) % 8 != 1 then Fail(ENOTDIR)
    else
      var f := FindFrom(img, if ino == 0 then root else SpecialOf(img, root + ino) / UNIT, name, |img|);
      if f < root || f == 0 then Fail(ENOENT) else StatAt(img, root, dev, f - root)
  }

  // A block of 16 bytes without a zero.
  predicate Full(img: seq<Byte>, at: nat) {
    at + UNIT <= |img| && 0 !in img[at..at + UNIT]
  }

  // The first block of the name field with a zero, from the b-th of 16 on.
  function BlockFrom(img: seq<Byte>, i: nat, b: nat): nat
    decreases 16 - b
  {
    if b >= 16 || !Full(img, UNIT * (i + 1 + b)) then b else BlockFrom(img, i, b + 1)
  }

  // What read answers at a position.
  function BytesOf(img: seq<Byte>, root: nat, ino: nat, count: nat, pos: int): Data {
    var i := root + ino;
    if !InImage(img, i) || pos < 0 || pos > SizeOf(img, i) then Bad(EINVAL)
    else
      var n := if pos + count > SizeOf(img, i) then SizeOf(img, i) - pos else count;
      var at := UNIT * (i + 2 + BlockFrom(img, i, 0)) + pos;
      if at + n > |img| then Bad(EIO) else Got(img[at..at + n])
  }

  // ---- They answer for the tree ----

  lemma SameName(img: seq<Byte>, at: nat, a: seq<Byte>, b: seq<Byte>)
    requires NameAt(img, at, a) && 0 !in a && 0 !in b
    ensures NameAt(img, at, b) <==> a == b
  {
    if NameAt(img, at, b) {
      forall k: nat | k < |a| ensures img[at + k] == a[k] != 0 { assert img[at..at + |a|][k] == a[k] && a[k] in a; }
      forall k: nat | k < |b| ensures img[at + k] == b[k] != 0 { assert img[at..at + |b|][k] == b[k] && b[k] in b; }
      assert |a| == |b|;
    }
  }

  // A chain from a given header has one length.
  lemma {:induction false} OneLength(img: seq<Byte>, root: nat, i: nat, es: seq<Entry>, fs: seq<Entry>)
    requires ListAt(img, root, i, es) && ListAt(img, root, i, fs)
    ensures |es| == |fs|
    decreases es
  {
    if |es| > 0 && |fs| > 0 {
      assert HeaderAt(img, root, i, es[0]);
      OneLength(img, root, NextOf(img, i), es[1..], fs[1..]);
    }
  }

  // The headers of a chain.
  ghost function Inodes(img: seq<Byte>, root: nat, i: nat, es: seq<Entry>): set<nat>
    requires ListAt(img, root, i, es)
    decreases es
  {
    if |es| == 0 then {}
    else
      assert HeaderAt(img, root, i, es[0]);
      {i} + Inodes(img, root, NextOf(img, i), es[1..])
  }

  // A header of a chain starts a rest of it.
  lemma {:induction false} RestFrom(img: seq<Byte>, root: nat, i: nat, es: seq<Entry>, j: nat) returns (fs: seq<Entry>)
    requires ListAt(img, root, i, es) && j in Inodes(img, root, i, es)
    ensures 0 < |fs| <= |es| && ListAt(img, root, j, fs) && root < j && InImage(img, j)
    decreases es
  {
    assert HeaderAt(img, root, i, es[0]);
    if j == i {
      fs := es;
    } else {
      fs := RestFrom(img, root, NextOf(img, i), es[1..], j);
    }
  }

  // No header occurs twice in a chain.
  lemma {:induction false} NoHeaderTwice(img: seq<Byte>, root: nat, i: nat, es: seq<Entry>)
    requires ListAt(img, root, i, es)
    ensures |Inodes(img, root, i, es)| == |es|
    decreases es
  {
    if |es| > 0 {
      var next := NextOf(img, i);
      NoHeaderTwice(img, root, next, es[1..]);
      if i in Inodes(img, root, next, es[1..]) {
        var fs := RestFrom(img, root, next, es[1..], i);
        OneLength(img, root, i, es, fs);
      }
    }
  }

  lemma {:induction false} Below(n: nat, s: set<nat>)
    requires forall x: nat :: x in s ==> x < n
    ensures |s| <= n
  {
    if n > 0 {
      Below(n - 1, s - {n - 1});
    } else {
      assert s == {};
    }
  }

  // A chain is shorter than the image.
  lemma ChainIsShort(img: seq<Byte>, root: nat, i: nat, es: seq<Entry>)
    requires ListAt(img, root, i, es) && root > 0 && InImage(img, root)
    ensures |es| + 1 <= |img|
  {
    NoHeaderTwice(img, root, i, es);
    forall j: nat | j in Inodes(img, root, i, es) ensures j < |img| / UNIT { var fs := RestFrom(img, root, i, es, j); }
    Below(|img| / UNIT, Inodes(img, root, i, es));
  }

  // The header found is the one of the node picked.
  ghost predicate Picked(img: seq<Byte>, root: nat, a: Answer, f: nat) {
    match a
    case Missing(e) => e == ENOENT && f == 0
    case Found(m) => f >= root && f > 0 && NodeAt(img, root, f - root, m)
  }

  lemma {:induction false} FindPicks(img: seq<Byte>, root: nat, i: nat, v: Volume, atRoot: bool, es: seq<Entry>,
      name: seq<Byte>, fuel: nat)
    requires Chain(img, root, i, v, atRoot, es) && 0 !in name && fuel >= |es| + (if atRoot then 1 else 0)
    ensures Picked(img, root, Pick(v, atRoot, es, name), FindFrom(img, i, name, fuel))
    decreases fuel
  {
    ChainStart(img, root, i, v, atRoot, es);
    if i != 0 {
      ChainHead(img, root, i, v, atRoot, es);
      SameName(img, UNIT * i + UNIT, HeadName(v, atRoot, es), name);
      if HeadName(v, atRoot, es) != name {
        FindPicks(img, root, NextOf(img, i), v, false, if atRoot then es else es[1..], name, fuel - 1);
      }
    }
  }

  lemma StatDescribes(img: seq<Byte>, root: nat, dev: nat, v: Volume, ino: nat, n: Node)
    requires RootAt(img, root, v) && NodeAt(img, root, ino, n)
    ensures var r := StatAt(img, root, dev, ino); r.Ok? && r.st.dev == dev && r.st.ino == ino && Describes(v, n, r.st)
  {
    NodeHeader(img, root, ino, v, n);
    var i := root + ino;
    WordBound(img, UNIT * i + 4);
    ModeTells(FlagsOf(img, i), SpecialOf(img, i), 0);
  }

  // The reply is the one for this place of the tree.
  ghost predicate Answered(img: seq<Byte>, root: nat, dev: nat, v: Volume, a: Answer, r: Reply) {
    match r
    case Fail(e) => a == Missing(e)
    case Ok(st) => a.Found? && st.dev == dev && Describes(v, a.node, st) && NodeAt(img, root, st.ino, a.node)
  }

  // The lookup's answer is the tree's.
  lemma LookupAnswers(img: seq<Byte>, root: nat, dev: nat, v: Volume, ino: nat, n: Node, name: seq<Byte>)
    requires RootAt(img, root, v) && NodeAt(img, root, ino, n) && 0 !in name
    ensures Answered(img, root, dev, v, Step(v, n, name), LookupAt(img, root, dev, ino, name))
  {
    hide HeaderAt, ListAt, NameAt, NameOk, Word, NextOf, SpecialOf, FlagsOf, InImage, InList, Describes, FindFrom;
    hide Chain, StatAt;
    NodeHeader(img, root, ino, v, n);
    if name == [] {
      StatDescribes(img, root, dev, v, ino, n);
    } else if n.Root? || n.entry.body.Dir? {
      var first := if ino == 0 then root else SpecialOf(img, root + ino) / UNIT;
      var es := if n.Root? then v.entries else n.entry.body.entries;
      ChainLength(img, root, first, v, n.Root?, es);
      FindPicks(img, root, first, v, n.Root?, es, name, |img|);
      match Step(v, n, name)
      case Missing(_) =>
      case Found(m) => StatDescribes(img, root, dev, v, FindFrom(img, first, name, |img|) - root, m);
    }
  }

  lemma ChainLength(img: seq<Byte>, root: nat, first: nat, v: Volume, atRoot: bool, es: seq<Entry>)
    requires RootAt(img, root, v) && Chain(img, root, first, v, atRoot, es)
    ensures |es| + (if atRoot then 1 else 0) <= |img|
  {
    ChainIsShort(img, root, if atRoot then NextOf(img, root) else first, es);
  }

  lemma {:induction false} BlockFound(img: seq<Byte>, i: nat, name: seq<Byte>, b: nat)
    requires NameOk(name) && NameAt(img, UNIT * i + UNIT, name) && b <= NameBlock(name)
    ensures BlockFrom(img, i, b) == NameBlock(name)
    decreases 16 - b
  {
    hide BlockFrom;
    var at, from := UNIT * (i + 1 + b), UNIT * i + UNIT;
    var q := |name| / 16;
    assert 16 * q <= |name| < 16 * q + 16 && at == from + 16 * b;
    BlockStep(img, i, b);
    if b < q {
      assert 16 * b + 16 <= |name|;
      SliceOfSlice(img, from, |name|, 16 * b, UNIT);
      assert 0 !in name[16 * b..16 * b + UNIT];
      if b < 16 { BlockFound(img, i, name, b + 1); }
    } else if at + UNIT <= |img| {
      var k := |name| - 16 * b;
      assert img[at..at + UNIT][k] == img[at + k] == 0;
    }
  }

  lemma BlockStep(img: seq<Byte>, i: nat, b: nat)
    ensures BlockFrom(img, i, b) == if b >= 16 || !Full(img, UNIT * (i + 1 + b)) then b else BlockFrom(img, i, b + 1)
  {
  }

  lemma SliceOfSlice(s: seq<Byte>, a: nat, n: nat, b: nat, m: nat)
    requires a + n <= |s| && b + m <= n
    ensures s[a..a + n][b..b + m] == s[a + b..a + b + m]
  {
    var x, y := s[a..a + n][b..b + m], s[a + b..a + b + m];
    forall k: nat {:trigger x[k]} | k < m ensures x[k] == y[k] {
      assert x[k] == s[a..a + n][b + k] == s[a + b + k];
    }
    assert x == y;
  }

  // The read's answer is a piece of the node's data.
  lemma BytesAnswer(img: seq<Byte>, root: nat, ino: nat, e: Entry, count: nat, pos: nat)
    requires NodeAt(img, root, ino, Inner(e)) && !e.body.Dir? && |e.name| < 272 && pos <= |e.body.data|
    ensures BytesOf(img, root, ino, count, pos) ==
      Got(e.body.data[pos..if pos + count > |e.body.data| then |e.body.data| else pos + count])
  {
    hide HeaderAt, ListAt, NameAt, NameOk, Word, BlockFrom, NameBlock, InImage;
    var i, d := root + ino, e.body.data;
    FileBytes(img, root, i, e);
    BlockFound(img, i, e.name, 0);
    NameBlockIs(e.name);
    var at, m := UNIT * ContentOf(i, e.name), if pos + count > |d| then |d| else pos + count;
    SliceOfSlice(img, at, |d|, pos, m - pos);
  }
}
