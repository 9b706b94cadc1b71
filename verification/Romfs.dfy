// The romfs driver: mounting an image, looking names up, reading files.
module Romfs {
  import opened Bytes
  import opened Errno
  import opened RomfsFormat
  import opened RomfsTree

  const MAX_ROMFS := 2
  const BUFFER := 16 + NAME_MAX + 1

  datatype Instance = Instance(used: bool, device: nat, root: nat)

  ghost predicate NoZero(buf: seq<Byte>, at: nat, n: nat) {
    forall k: nat {:trigger buf[k]} :: at <= k < at + n && k < |buf| ==> buf[k] != 0
  }

  function Difference(a: int, b: int): int { a - b }

  class Driver {
    const images: map<nat, seq<Byte>>
    const instances: array<Instance>

    ghost predicate Valid()
      reads this, instances
    {
      && instances.Length == MAX_ROMFS
      && forall d: nat {:trigger images[d]} :: d in images ==> |images[d]| < MAX_IMAGE
    }

    // The image of an instance, and where its root's header is.
    ghost function Img(instance: nat): seq<Byte>
      requires Valid() && instance < MAX_ROMFS && instances[instance].device in images
      reads this, instances
    {
      images[instances[instance].device]
    }

    ghost function Base(instance: nat): nat
      requires Valid() && instance < MAX_ROMFS
      reads this, instances
    {
      instances[instance].root
    }

    // The volume on an instance.
    ghost predicate Serves(instance: nat, v: Volume)
      reads this, instances
    {
      && Valid() && instance < MAX_ROMFS && instances[instance].used && instances[instance].device in images
      && RootAt(images[instances[instance].device], instances[instance].root, v)
    }

    constructor (images: map<nat, seq<Byte>>)
      requires forall d: nat {:trigger images[d]} :: d in images ==> |images[d]| < MAX_IMAGE
      ensures Valid() && this.images == images && fresh(instances) && forall q: nat :: q < MAX_ROMFS ==>
        !instances[q].used
    {
      this.images := images;
      instances := new Instance[MAX_ROMFS](_ => Instance(false, 0, 0));
    }

    // The bytes of a read, as far as the image goes; the rest of the buffer stays.
    ghost predicate ReadInto(dev: nat, bytes: nat, offset: nat, was: seq<Byte>, buf: seq<Byte>)
      requires dev in images
    {
      && |buf| == |was|
      && forall k: nat {:trigger buf[k]} :: k < |buf| ==>
           buf[k] == if k < bytes && offset + k < |images[dev]| then images[dev][offset + k] else was[k]
    }

    method ReadUnaligned(dev: nat, buf: array<Byte>, bytes: nat, offset: int) returns (err: int)
      requires Valid() && dev in images && bytes <= buf.Length
      modifies buf
      ensures err == if offset < 0 then -EINVAL else 0
      ensures offset < 0 ==> buf[..] == old(buf[..])
      ensures offset >= 0 ==> ReadInto(dev, bytes, offset, old(buf[..]), buf[..])
    {
      err := 0;
      if offset < 0 {
        return -EINVAL;
      }
      if bytes == 0 {
        return;
      }
      MemblkRead(dev, buf, bytes, offset);
    }

    // memblk_read: clipped at the end of the image, nothing from behind it.
    method MemblkRead(dev: nat, buf: array<Byte>, bytes: nat, offset: nat)
      requires Valid() && dev in images && bytes <= buf.Length
      modifies buf
      ensures ReadInto(dev, bytes, offset, old(buf[..]), buf[..])
    {
      var len, count := |images[dev]|, bytes;
      if len < offset + count {
        if len < offset {
          return;
        }
        count := len - offset;
      }
      var n := count;
      while n > 0
        invariant n <= count
        invariant forall k: nat {:trigger buf[k]} :: k < buf.Length ==>
          buf[k] == if n <= k < count then images[dev][offset + k] else old(buf[k])
      {
        n := n - 1;
        buf[n] := images[dev][offset + n];
      }
    }

    // strncmp on a string and a buffer that holds a terminated name.
    method Strncmp(s: seq<Byte>, buf: array<Byte>, at: nat, n: nat) returns (r: int, ghost stop: nat)
      requires 0 !in s && 0 < n && at + n <= buf.Length
      ensures stop < n && stop <= |s| && s[..stop] == buf[at..at + stop] && NoZero(buf[..], at, stop)
      ensures r == Difference(if stop < |s| then s[stop] else 0, buf[at + stop])
      ensures r == 0 ==> stop == n - 1 || stop == |s|
    {
      var i := 0;
      while i < n - 1 && i < |s| && buf[at + i] != 0 && s[i] == buf[at + i]
        invariant i < n && i <= |s| && s[..i] == buf[at..at + i] && NoZero(buf[..], at, i)
      {
        assert buf[at..at + (i + 1)] == buf[at..at + i] + [buf[at + i]];
        i := i + 1;
      }
      stop := i;
      r := Difference(if i < |s| then s[i] else 0, buf[at + i]);
    }

    // fs_romfs_mount: the number of the instance, or an error.
    method Mount(dev: nat, ghost v: Volume) returns (q: int, rootInode: nat)
      requires Valid() && dev in images
      modifies instances
      ensures Valid()
      ensures (forall i: nat :: i < MAX_ROMFS ==> old(instances[i].used)) ==>
        q == -ENOMEM && instances[..] == old(instances[..])
      ensures (exists i: nat :: i < MAX_ROMFS && !old(instances[i].used)) && VolumeAt(images[dev], v) ==>
        if |v.title| < 512 - 16 then
          && 0 <= q < MAX_ROMFS && !old(instances[q].used) && (forall i: nat :: i < q ==> old(instances[i].used))
          && rootInode == 0
          && instances[..] == old(instances[..])[q := Instance(true, dev, RootOf(v))] && Serves(q, v)
        else q == -EINVAL
      ensures (exists i: nat :: i < MAX_ROMFS && !old(instances[i].used)) ==>
        |images[dev]| >= 8 && images[dev][..8] != MAGIC ==> q == -EINVAL
      ensures q < 0 ==> forall i: nat :: i < MAX_ROMFS ==> instances[i].used == old(instances[i].used)
    {
      var buff := new Byte[512];
      rootInode := 0;
      q := 0;
      while q < MAX_ROMFS && instances[q].used
        invariant 0 <= q <= MAX_ROMFS && forall i: nat :: i < q ==> instances[i].used
        modifies {}
      {
        q := q + 1;
      }
      if q == MAX_ROMFS {
        return -ENOMEM, 0;
      }
      instances[q] := Instance(false, dev, instances[q].root);
      var _ := ReadUnaligned(dev, buff, 512, 0);
      var r, stop := Strncmp(MAGIC, buff, 0, 8);
      MagicRead(dev, buff[..], r, stop);
      if r != 0 {
        return -EINVAL, 0;
      }
      var i := 16;
      while i < 512 && buff[i] != 0
        invariant 16 <= i <= 512 && forall k: nat {:trigger buff[k]} :: 16 <= k < i ==> buff[k] != 0
        modifies {}
      {
        i := i + 1;
      }
      TitleRead(dev, buff[..], i, v);
      if i == 512 {
        return -EINVAL, 0;
      }
      i := i + 16;
      instances[q] := Instance(true, dev, i / 16);
    }

    lemma MagicRead(dev: nat, buf: seq<Byte>, r: int, stop: nat)
      requires dev in images && |buf| == 512
      requires forall k: nat {:trigger buf[k]} :: k < 512 && k < |images[dev]| ==> buf[k] == images[dev][k]
      requires stop < 8 && MAGIC[..stop] == buf[..stop] && r == Difference(MAGIC[stop], buf[stop])
      requires (r == 0 ==> stop == 7)
      ensures |images[dev]| >= 8 ==> (r == 0 <==> images[dev][..8] == MAGIC)
    {
      assert buf[..stop] + [buf[stop]] == buf[..stop + 1] && MAGIC[..stop] + [MAGIC[stop]] == MAGIC[..stop + 1];
      if |images[dev]| >= 8 {
        assert buf[..8] == images[dev][..8];
        if r == 0 { assert MAGIC[..8] == MAGIC; }
        if images[dev][..8] == MAGIC { assert buf[..8][stop] == MAGIC[stop]; }
      }
    }

    lemma TitleRead(dev: nat, buf: seq<Byte>, i: nat, v: Volume)
      requires dev in images && |buf| == 512 && 16 <= i <= 512 && (i < 512 ==> buf[i] == 0)
      requires forall k: nat {:trigger buf[k]} :: 16 <= k < i ==> buf[k] != 0
      requires forall k: nat {:trigger buf[k]} :: k < 512 && k < |images[dev]| ==> buf[k] == images[dev][k]
      ensures VolumeAt(images[dev], v) ==> i == if |v.title| < 512 - 16 then 16 + |v.title| else 512
    {
      var img := images[dev];
      if VolumeAt(img, v) {
        forall k: nat {:trigger v.title[k]} | k < |v.title| ensures v.title[k] == img[16 + k] && v.title[k] != 0 {
          assert img[16..16 + |v.title|][k] == img[16 + k];
        }
        assert 16 <= i < 16 + |v.title| ==> v.title[i - 16] == img[i];
        var end := 16 + |v.title|;
        assert img[end] == 0 && (end < 512 ==> buf[end] == 0);
      }
    }

    // fs_romfs_stat_inode.
    method StatInode(instance: nat, inode: nat, ghost v: Volume, ghost n: Node) returns (st: Stat)
      requires Serves(instance, v) && NodeAt(Img(instance), Base(instance), inode, n)
      ensures st.ino == inode && st.dev == instances[instance].device && Describes(v, n, st)
      ensures Ok(st) == StatAt(Img(instance), Base(instance), instances[instance].device, inode)
    {
      hide RootAt, NodeAt, HeaderAt, ListAt, Describes, Word, ByteToMode;
      var dev := instances[instance].device;
      var buff := new Byte[16];
      var i := inode + instances[instance].root;
      NodeHeader(images[dev], instances[instance].root, inode, v, n);
      var _ := ReadUnaligned(dev, buff, 16, i * 16);
      HeaderRead(images[dev], i, buff[..]);
      StatDescribes(images[dev], instances[instance].root, dev, v, inode, n);
      var special := Word(buff[..], 4);
      var (mode, rdev) := ByteToMode(buff[3], special, 0);
      var size := Word(buff[..], 8);
      st := Stat(dev, i - instances[instance].root, mode, rdev, size, (size + BLOCK_SIZE - 1) / BLOCK_SIZE);
    }

    // The loop of fs_romfs_stat: the first header of the chain with that name, 0 if none.
    method Scan(instance: nat, first: nat, fname: seq<Byte>, buff: array<Byte>,
        ghost v: Volume, ghost fromRoot: bool, ghost all: seq<Entry>)
      returns (i: nat)
      requires Serves(instance, v) && 0 !in fname && buff.Length == BUFFER
      requires Chain(Img(instance), Base(instance), first, v, fromRoot, all)
      modifies buff
      ensures i == FindFrom(Img(instance), first, fname, |Img(instance)|)
      ensures Picked(Img(instance), Base(instance), Pick(v, fromRoot, all, fname), i)
    {
      hide Chain, NodeAt, NextOf, NameAt, NameOk, RootAt, Picked;
      var dev := instances[instance].device;
      ghost var img, root := images[dev], instances[instance].root;
      ghost var es, atRoot, fuel := all, fromRoot, |img|;
      i := first;
      ChainLength(img, root, first, v, fromRoot, all);
      FindPicks(img, root, first, v, fromRoot, all, fname, fuel);
      ChainStart(img, root, i, v, atRoot, es);
      while i != 0
        invariant Chain(img, root, i, v, atRoot, es)
        invariant i == 0 ==> !atRoot && |es| == 0
        invariant fuel >= |es| + (if atRoot then 1 else 0)
        invariant FindFrom(img, first, fname, |img|) == FindFrom(img, i, fname, fuel)
        decreases atRoot, |es|
        modifies buff
      {
        ChainHead(img, root, i, v, atRoot, es);
        SameName(img, UNIT * i + UNIT, HeadName(v, atRoot, es), fname);
        var _ := ReadUnaligned(dev, buff, BUFFER, i * 16);
        HeaderRead(img, i, buff[..]);
        var r, stop := Strncmp(fname, buff, 16, NAME_MAX);
        NameCompared(img, i, HeadName(v, atRoot, es), fname, buff[..], r, stop);
        if r == 0 {
          return;
        }
        i := Word(buff[..], 0) / 16;
        fuel := fuel - 1;
        if atRoot { atRoot := false; } else { es := es[1..]; }
        ChainEnd(img, root, i, v, es);
      }
    }

    // fs_romfs_stat: the node of that name.
    method StatName(instance: nat, inode: nat, fname: seq<Byte>, ghost v: Volume, ghost n: Node)
      returns (err: int, st: Stat)
      requires Serves(instance, v) && NodeAt(Img(instance), Base(instance), inode, n)
      requires 0 !in fname
      ensures Step(v, n, fname).Missing? ==> err + Step(v, n, fname).errno == 0
      ensures Step(v, n, fname).Found? ==>
        err == 0 && Answered(Img(instance), Base(instance), instances[instance].device, v, Step(v, n, fname), Ok(st))
      ensures match LookupAt(Img(instance), Base(instance), instances[instance].device, inode, fname)
        case Ok(at) => err == 0 && st == at
        case Fail(e) => err + e == 0 && e > 0
    {
      hide ListAt, HeaderAt, NextOf, NameAt, NameOk, Describes, InList, FindFrom, Chain, StatAt;
      var dev, root := instances[instance].device, instances[instance].root;
      NodeHeader(images[dev], root, inode, v, n);
      err, st := 0, Stat(0, 0, 0, 0, 0, 0);
      var buff := new Byte[BUFFER];
      var i := inode + root;
      var _ := ReadUnaligned(dev, buff, BUFFER, i * 16);
      HeaderRead(images[dev], i, buff[..]);
      if fname != [] {
        if i != root {
          if buff[3] % 8 != 1 {
            return -ENOTDIR, st;
          }
          i := Word(buff[..], 4) / 16;
        }
        i := Scan(instance, i, fname, buff, v, n.Root?, if n.Root? then v.entries else n.entry.body.entries);
        if i == 0 {
          return -ENOENT, st;
        }
      }
      st := StatInode(instance, i - root, v, Step(v, n, fname).node);
    }

    // The name scan of fs_romfs_read: the block that ends the name, at most 16.
    method NameScan(dev: nat, i: nat, node: array<Byte>, ghost name: seq<Byte>) returns (b: nat)
      requires Valid() && dev in images && node.Length == 16 && NameOk(name)
      requires NameAt(images[dev], UNIT * i + UNIT, name)
      modifies node
      ensures b == NameBlock(name)
    {
      b := 0;
      while b < 16
        invariant b <= 16 && b <= |name| / 16
      {
        var _ := ReadUnaligned(dev, node, 16, i * 16 + 16 + b * 16);
        NameBytes(images[dev], i, name, b, node[..]);
        var j := 0;
        while j < 16 && node[j] != 0
          invariant j <= 16 && forall k: nat {:trigger node[k]} :: k < j ==> node[k] != 0
          modifies {}
        {
          j := j + 1;
        }
        if j < 16 {
          return;
        }
        b := b + 1;
      }
    }

    // fs_romfs_read of anything but a directory.
    method Read(instance: nat, inode: nat, data: array<Byte>, bytes: nat, offset: nat, ghost v: Volume, ghost e: Entry)
      returns (count: nat)
      requires Serves(instance, v) && NodeAt(Img(instance), Base(instance), inode, Inner(e))
      requires !e.body.Dir? && offset <= |e.body.data| && bytes <= data.Length
      modifies data
      ensures count == if offset + bytes > |e.body.data| then |e.body.data| - offset else bytes
      ensures var from := UNIT * (Base(instance) + inode + 2 + NameBlock(e.name)) + offset;
        ReadInto(instances[instance].device, count, from, old(data[..]), data[..])
      ensures |e.name| < 272 ==>
        BytesOf(Img(instance), Base(instance), inode, bytes, offset) == Got(data[..count])
      ensures |e.name| < 272 ==>
        data[..count] == e.body.data[offset..offset + count] && data[count..] == old(data[count..])
    {
      hide HeaderAt, ListAt, NameAt, NameOk, ContentOf, BytesOf, Word, SizeOf, BytesAt, RootAt, NextOf, SpecialOf;
      hide NameBlock;
      hide InImage, FlagsOf;
      var dev := instances[instance].device;
      FileBytes(images[dev], instances[instance].root, inode + instances[instance].root, e);
      var node := new Byte[16];
      var i := inode + instances[instance].root;
      var _ := ReadUnaligned(dev, node, 16, i * 16);
      HeaderRead(images[dev], i, node[..]);
      count := bytes;
      if offset + bytes > Word(node[..], 8) {
        count := Word(node[..], 8) - offset;
      }
      var b := NameScan(dev, i, node, e.name);
      b := b + 1;
      ghost var was := data[..];
      var _ := ReadUnaligned(dev, data, count, i * 16 + 16 + b * 16 + offset);
      if |e.name| < 272 {
        FileRead(images[dev], i, e, offset, count, was, data[..]);
        BytesAnswer(images[dev], instances[instance].root, inode, e, bytes, offset);
      }
    }

    // The loop of fs_romfs_read_directory: the header at a position of the chain,
    // left in the buffer; 0 past the end.
    method Nth(instance: nat, first: nat, pos: nat, buff: array<Byte>, ghost v: Volume, ghost fromRoot: bool,
        ghost all: seq<Entry>)
      returns (i: nat)
      requires Serves(instance, v) && buff.Length == BUFFER
      requires Chain(images[instances[instance].device], instances[instance].root, first, v, fromRoot, all)
      modifies buff
      ensures i == 0 <==> pos >= |Nodes(fromRoot, all)|
      ensures i != 0 ==>
        && HeaderIn(Img(instance), i, buff[..])
        && NamedHere(Img(instance), Base(instance), i, v, Nodes(fromRoot, all)[pos], buff[..])
    {
      hide Chain, NextOf, Nodes, NameAt, NameOk, NodeAt, NamedHere, RootAt;
      var dev := instances[instance].device;
      ghost var img, root := images[dev], instances[instance].root;
      ghost var es, atRoot, listed := all, fromRoot, Nodes(fromRoot, all);
      i := first;
      ChainStart(img, root, i, v, atRoot, es);
      NodesStep(v, atRoot, es);
      var k := 0;
      while i != 0
        invariant k <= pos && Chain(img, root, i, v, atRoot, es) && (i == 0 <==> !atRoot && |es| == 0)
        invariant k <= |listed| && listed[k..] == Nodes(atRoot, es)
        invariant i == 0 ==> k == |listed|
        decreases atRoot, |es|
        modifies buff
      {
        ChainHead(img, root, i, v, atRoot, es);
        NodesStep(v, atRoot, es);
        assert listed[k..][0] == listed[k] && listed[k..][1..] == listed[k + 1..];
        var _ := ReadUnaligned(dev, buff, BUFFER, i * 16);
        HeaderRead(img, i, buff[..]);
        if k == pos {
          HereIsNamed(img, root, i, v, atRoot, es, buff[..]);
          return;
        }
        i, k := Word(buff[..], 0) / 16, k + 1;
        if atRoot { atRoot := false; } else { es := es[1..]; }
        ChainEnd(img, root, i, v, es);
        NodesStep(v, atRoot, es);
      }
    }

    // fs_romfs_read_directory: the entry at a position.
    method ReadDirectory(instance: nat, inode: nat, pos: int, ghost v: Volume, ghost n: Node)
      returns (err: int, found: bool, ino: nat, mode: nat, name: seq<Byte>)
      requires Serves(instance, v) && NodeAt(Img(instance), Base(instance), inode, n)
      ensures pos < 0 ==> err == -EINVAL
      ensures pos >= 0 && n.Inner? && !n.entry.body.Dir? ==> err == -ENOTDIR
      ensures pos >= 0 && (n.Root? || n.entry.body.Dir?) ==> err == 0 && (found <==> pos < |Listing(v, n)|)
      ensures found ==>
        0 <= pos < |Listing(v, n)| && mode == ModeFor(NodeKind(Listing(v, n)[pos]), NodeExec(v, Listing(v, n)[pos]))
      ensures found ==> 0 <= pos < |Listing(v, n)| && name == NodeName(v, Listing(v, n)[pos])
      ensures found ==> NodeAt(Img(instance), Base(instance), ino, Listing(v, n)[pos])
    {
      hide ListAt, HeaderAt, NextOf, Chain, NodeAt, Nodes, NameAt, NameOk, RootAt, Word, SpecialOf, InImage, NameIn;
      var dev, root := instances[instance].device, instances[instance].root;
      err, found, ino, mode, name := 0, false, 0, 0, [];
      NodeHeader(images[dev], root, inode, v, n);
      var buff := new Byte[BUFFER];
      var i: nat := inode + root;
      if pos < 0 {
        return -EINVAL, false, 0, 0, [];
      }
      var _ := ReadUnaligned(dev, buff, 16, i * 16);
      HeaderRead(images[dev], i, buff[..]);
      if i != root {
        if buff[3] % 8 != 1 {
          return -ENOTDIR, false, 0, 0, [];
        }
        i := Word(buff[..], 4) / 16;
      }
      i := Nth(instance, i, pos, buff, v, n.Root?, if n.Root? then v.entries else n.entry.body.entries);
      if i != 0 {
        found, ino := true, i - root;
        StatDescribes(images[dev], root, dev, v, ino, Listing(v, n)[pos]);
        NodeHeader(images[dev], root, ino, v, Listing(v, n)[pos]);
        var (m, _) := ByteToMode(buff[3], Word(buff[..], 4), 0);
        mode := m;
        name := CString(buff, NodeName(v, Listing(v, n)[pos]));
      }
    }

    // The string at the name field of a header in a buffer.
    method CString(buff: array<Byte>, ghost name: seq<Byte>) returns (s: seq<Byte>)
      requires buff.Length == BUFFER && NameIn(buff[..], name)
      ensures s == name
    {
      s := [];
      while |s| < NAME_MAX && buff[16 + |s|] != 0
        invariant |s| <= |name| && s == name[..|s|]
      {
        s := s + [buff[16 + |s|]];
      }
    }
  }

  // The buffer holds a header with this name.
  ghost predicate NameIn(buf: seq<Byte>, name: seq<Byte>)
    requires |buf| == BUFFER
  {
    && |name| < NAME_MAX && buf[16 + |name|] == 0
    && forall m: nat {:trigger buf[m]} :: 16 <= m < 16 + |name| ==> buf[m] == name[m - 16] && buf[m] != 0
  }

  // The header at i is the node's, and its name is in the buffer.
  ghost predicate NamedHere(img: seq<Byte>, root: nat, i: nat, v: Volume, n: Node, buf: seq<Byte>)
    requires |buf| == BUFFER
  {
    i >= root && NodeAt(img, root, i - root, n) && NameIn(buf, NodeName(v, n))
  }

  lemma HereIsNamed(img: seq<Byte>, root: nat, i: nat, v: Volume, atRoot: bool, es: seq<Entry>, buf: seq<Byte>)
    requires Chain(img, root, i, v, atRoot, es) && i != 0 && |buf| == BUFFER && (atRoot || |es| > 0)
    requires forall k: nat {:trigger buf[k]} :: k < BUFFER && i * 16 + k < |img| ==> buf[k] == img[i * 16 + k]
    ensures NamedHere(img, root, i, v, if atRoot then Root else Inner(es[0]), buf)
  {
    hide NodeAt, NameAt, Chain;
    ChainHead(img, root, i, v, atRoot, es);
    NameInBuffer(img, i, HeadName(v, atRoot, es), buf);
  }

  lemma NameInBuffer(img: seq<Byte>, i: nat, name: seq<Byte>, buf: seq<Byte>)
    requires NameOk(name) && NameAt(img, UNIT * i + UNIT, name) && |buf| == BUFFER
    requires forall k: nat {:trigger buf[k]} :: k < BUFFER && i * 16 + k < |img| ==> buf[k] == img[i * 16 + k]
    ensures forall k: nat {:trigger name[k]} :: k < |name| ==> name[k] == buf[16 + k] && name[k] != 0
    ensures buf[16 + |name|] == 0
  {
    forall k: nat {:trigger name[k]} | k < |name| ensures name[k] == buf[16 + k] && name[k] != 0 {
      assert img[UNIT * i + UNIT..UNIT * i + UNIT + |name|][k] == img[i * 16 + (16 + k)];
    }
  }

  // ---- Files ----

  lemma NameBytes(img: seq<Byte>, i: nat, name: seq<Byte>, b: nat, node: seq<Byte>)
    requires NameOk(name) && NameAt(img, UNIT * i + UNIT, name) && |node| == 16 && b <= |name| / 16
    requires forall k: nat {:trigger node[k]} :: k < 16 && i * 16 + 16 + b * 16 + k < |img| ==>
      node[k] == img[i * 16 + 16 + b * 16 + k]
    ensures b < |name| / 16 ==> forall k: nat {:trigger node[k]} :: k < 16 ==> node[k] != 0
    ensures b == |name| / 16 ==> node[|name| % 16] == 0
  {
    if b < |name| / 16 {
      forall k: nat {:trigger node[k]} | k < 16 ensures node[k] != 0 {
        assert img[UNIT * i + UNIT..UNIT * i + UNIT + |name|][b * 16 + k] == name[b * 16 + k];
      }
    }
  }

  // The bytes read are the file's.
  lemma FileRead(img: seq<Byte>, i: nat, e: Entry, offset: nat, count: nat, was: seq<Byte>, buf: seq<Byte>)
    requires !e.body.Dir? && BytesAt(img, UNIT * ContentOf(i, e.name), e.body.data) && |e.name| < 272
    requires offset + count <= |e.body.data| && count <= |buf| == |was|
    requires var from := i * 16 + 16 + (NameBlock(e.name) + 1) * 16 + offset;
      forall k: nat {:trigger buf[k]} :: k < |buf| ==>
        buf[k] == if k < count && from + k < |img| then img[from + k] else was[k]
    ensures buf[..count] == e.body.data[offset..offset + count] && buf[count..] == was[count..]
  {
    NameBlockIs(e.name);
    var at := UNIT * ContentOf(i, e.name);
    forall k: nat {:trigger e.body.data[k]} | k < |e.body.data| ensures e.body.data[k] == img[at + k] {
      assert img[at..at + |e.body.data|][k] == img[at + k];
    }
  }

  // A comparison of a string with the name in a buffer tells whether they are equal.
  lemma NameCompared(img: seq<Byte>, i: nat, name: seq<Byte>, s: seq<Byte>, buf: seq<Byte>, r: int, stop: nat)
    requires NameOk(name) && NameAt(img, UNIT * i + UNIT, name) && 0 !in s && |buf| == BUFFER
    requires forall k: nat {:trigger buf[k]} :: k < BUFFER && i * 16 + k < |img| ==> buf[k] == img[i * 16 + k]
    requires stop < NAME_MAX && stop <= |s| && s[..stop] == buf[16..16 + stop] && NoZero(buf, 16, stop)
    requires r == Difference(if stop < |s| then s[stop] else 0, buf[16 + stop]) && (r == 0 ==>
      stop == NAME_MAX - 1 || stop == |s|)
    ensures r == 0 <==> s == name
  {
    NameInBuffer(img, i, name, buf);
    assert s[..stop] == name[..stop];
  }

  // A buffer starts with the header at i.
  ghost predicate HeaderIn(img: seq<Byte>, i: nat, buf: seq<Byte>) {
    && InImage(img, i) && 16 <= |buf|
    && buf[3] == FlagsOf(img, i) && Word(buf, 0) / 16 == NextOf(img, i)
    && Word(buf, 4) == SpecialOf(img, i) && Word(buf, 8) == SizeOf(img, i)
  }

  // The header at i, read into a buffer.
  lemma HeaderRead(img: seq<Byte>, i: nat, buf: seq<Byte>)
    requires InImage(img, i) && 16 <= |buf|
    requires forall k: nat {:trigger buf[k]} :: k < 16 ==> buf[k] == img[i * 16 + k]
    ensures HeaderIn(img, i, buf)
  {
  }
}