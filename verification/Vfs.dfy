// The virtual file system: path resolution, and files read through descriptors.
module Vfs {
  import opened Bytes
  import opened Errno
  import opened RomfsFormat
  import opened RomfsTree
  import opened Paths

  const MAX_GLOBAL_FILES := 1024
  const MAX_MOUNT_POINTS := 16

  // `instance` shares its storage with the device number.
  datatype FileEntry = FileEntry(used: bool, device: bool, read: bool, write: bool, directory: bool, unsupported: bool,
                                 pos: int, refs: int, mode: nat, instance: nat, inode: nat)

  // A file system's answers to a read at a position and to an inode.
  type ReadAt = (nat, nat, nat, nat, int) -> Data
  type Inquire = (nat, nat, nat) -> Reply

  // ---- Reading in pieces ----

  function Chunk(data: seq<Byte>, pos: nat, count: nat): (c: seq<Byte>)
    requires pos <= |data|
    ensures |c| <= count && pos + |c| <= |data|
  {
    data[pos..if pos + count > |data| then |data| else pos + count]
  }

  // What reads of these sizes give one after the other.
  function Chunks(data: seq<Byte>, pos: nat, counts: seq<nat>): seq<seq<Byte>>
    requires pos <= |data|
    decreases |counts|
  {
    if |counts| == 0 then []
    else [Chunk(data, pos, counts[0])] + Chunks(data, pos + |Chunk(data, pos, counts[0])|, counts[1..])
  }

  function Flat(cs: seq<seq<Byte>>): seq<Byte> {
    if |cs| == 0 then [] else cs[0] + Flat(cs[1..])
  }

  function Sum(counts: seq<nat>): nat {
    if |counts| == 0 then 0 else counts[0] + Sum(counts[1..])
  }

  lemma NoChunk(data: seq<Byte>, pos: nat)
    requires pos <= |data|
    ensures Chunk(data, pos, 0) == []
  {
  }

  lemma ChunkSplits(data: seq<Byte>, pos: nat, a: nat, b: nat)
    requires pos <= |data|
    ensures var c := Chunk(data, pos, a); Chunk(data, pos, a + b) == c + Chunk(data, pos + |c|, b)
  {
  }

  // Together the pieces are the file's bytes in order, up to its end.
  lemma {:induction false} PiecesMakeTheFile(data: seq<Byte>, pos: nat, counts: seq<nat>)
    requires pos <= |data|
    ensures Flat(Chunks(data, pos, counts)) == Chunk(data, pos, Sum(counts))
    decreases |counts|
  {
    hide Chunk;
    if |counts| == 0 {
      NoChunk(data, pos);
    } else {
      var c := Chunk(data, pos, counts[0]);
      var cs := Chunks(data, pos + |c|, counts[1..]);
      PiecesMakeTheFile(data, pos + |c|, counts[1..]);
      assert ([c] + cs)[1..] == cs;
      ChunkSplits(data, pos, counts[0], Sum(counts[1..]));
    }
  }

  // From the end on, every piece is empty.
  lemma {:induction false} NothingAfterTheEnd(data: seq<Byte>, counts: seq<nat>, k: nat)
    requires k < |counts|
    ensures |Chunks(data, |data|, counts)| == |counts| && Chunks(data, |data|, counts)[k] == []
    decreases |counts|
  {
    if |counts| > 1 {
      NothingAfterTheEnd(data, counts[1..], if k > 0 then k - 1 else 0);
    }
  }

  // The read function gives the bytes of a file.
  ghost predicate Holds(readAt: ReadAt, fs: nat, instance: nat, inode: nat, data: seq<Byte>) {
    forall count: nat, pos: nat {:trigger Chunk(data, pos, count)} :: pos <= |data| ==>
      readAt(fs, instance, inode, count, pos) == Got(Chunk(data, pos, count))
  }

  // ---- Descriptors ----

  datatype Opening = Refused(errno: nat) | Opens(mp: nat, entry: FileEntry)

  // What opening a path comes to: why it cannot be opened, or an entry at
  // position 0 of the inode that the path denotes.
  function OpeningOf(lookup: Lookup, inquire: Inquire, ms: seq<MountPoint>, path: seq<Byte>): (o: Opening)
    ensures o.Opens? ==> Meaning(lookup, ms, path, 0).At? && o.mp == Meaning(lookup, ms, path, 0).mp < |ms|
  {
    match Meaning(lookup, ms, path, 0)
    case Error(e) => Refused(e)
    case At(mp, inode) =>
      if mp >= |ms| then Refused(EINVAL)
      else match inquire(ms[mp].fs, ms[mp].instance, inode)
        case Fail(e) => Refused(e)
        case Ok(st) =>
          var device := TypeOf(st.mode) == S_IFBLK || TypeOf(st.mode) == S_IFCHR;
          var directory := TypeOf(st.mode) == S_IFDIR;
          var instance := if device then st.rdev else mp;
          Opens(mp, FileEntry(true, device, true, device, directory, false, 0, 1, st.mode, instance, st.ino))
  }

  // One more open file on a mount point.
  function Counted(m: MountPoint): (c: MountPoint)
    ensures c.openFiles == m.openFiles + 1 && c.(openFiles := m.openFiles) == m
  {
    m.(openFiles := m.openFiles + 1)
  }

  // An entry by the type in the mode: a device's names its device number and may
  // be written, a directory's cannot be read as a file.
  lemma OpeningIs(lookup: Lookup, inquire: Inquire, ms: seq<MountPoint>, path: seq<Byte>)
    requires Meaning(lookup, ms, path, 0).At? && Meaning(lookup, ms, path, 0).mp < |ms|
    ensures var m, o := Meaning(lookup, ms, path, 0), OpeningOf(lookup, inquire, ms, path);
      match inquire(ms[m.mp].fs, ms[m.mp].instance, m.inode)
      case Fail(e) => o == Refused(e)
      case Ok(st) =>
        var t := st.mode / 4096;
        && o.Opens? && o.mp == m.mp && o.entry.used && o.entry.pos == 0 && o.entry.refs == 1
        && o.entry.inode == st.ino && o.entry.mode == st.mode && o.entry.read
        && (o.entry.device <==> t == 2 || t == 6) && (o.entry.write <==> t == 2 || t == 6)
        && (o.entry.directory <==> t == 4) && o.entry.instance == if o.entry.device then st.rdev else m.mp
  {
  }

  // One read through an entry: what it returns, and the entry afterwards.
  function Transfer(readAt: ReadAt, ms: seq<MountPoint>, e: FileEntry, count: nat): (int, seq<Byte>)
    requires e.instance < |ms|
  {
    if e.directory then (-EISDIR, [])
    else if !e.read then (-EACCES, [])
    else match readAt(ms[e.instance].fs, ms[e.instance].instance, e.inode, count, e.pos)
      case Bad(n) => (0 - n, [])
      case Got(b) => (|b|, b)
  }

  function Advanced(readAt: ReadAt, ms: seq<MountPoint>, e: FileEntry, count: nat): FileEntry
    requires e.instance < |ms|
  {
    e.(pos := e.pos + |Transfer(readAt, ms, e, count).1|)
  }

  // Reads of these sizes through one entry, one after the other.
  function Reads(readAt: ReadAt, ms: seq<MountPoint>, e: FileEntry, counts: seq<nat>): (seq<seq<Byte>>, FileEntry)
    requires e.instance < |ms|
    decreases |counts|
  {
    if |counts| == 0 then ([], e)
    else
      var (outs, last) := Reads(readAt, ms, Advanced(readAt, ms, e, counts[0]), counts[1..]);
      ([Transfer(readAt, ms, e, counts[0]).1] + outs, last)
  }

  lemma ReadOne(readAt: ReadAt, ms: seq<MountPoint>, e: FileEntry, count: nat, data: seq<Byte>)
    requires e.instance < |ms| && e.read && !e.directory && 0 <= e.pos <= |data|
    requires Holds(readAt, ms[e.instance].fs, ms[e.instance].instance, e.inode, data)
    ensures Transfer(readAt, ms, e, count).1 == Chunk(data, e.pos, count)
    ensures Advanced(readAt, ms, e, count) == e.(pos := e.pos + |Chunk(data, e.pos, count)|)
  {
    assert readAt(ms[e.instance].fs, ms[e.instance].instance, e.inode, count, e.pos) == Got(Chunk(data, e.pos, count));
  }

  lemma SumInChunk(data: seq<Byte>, pos: nat, counts: seq<nat>)
    requires pos <= |data|
    ensures |counts| == 0 ==> |Chunk(data, pos, Sum(counts))| == 0
    ensures |counts| > 0 ==>
      var c := Chunk(data, pos, counts[0]);
      |Chunk(data, pos, Sum(counts))| == |c| + |Chunk(data, pos + |c|, Sum(counts[1..]))|
  {
  }

  // An open regular file read piece by piece gives the file's pieces, and its
  // position stays within the file.
  lemma {:induction false} ReadsGiveTheFile(readAt: ReadAt, ms: seq<MountPoint>, e: FileEntry, counts: seq<nat>,
      data: seq<Byte>)
    requires e.instance < |ms| && e.read && !e.directory && 0 <= e.pos <= |data|
    requires Holds(readAt, ms[e.instance].fs, ms[e.instance].instance, e.inode, data)
    ensures var (outs, last) := Reads(readAt, ms, e, counts);
      && outs == Chunks(data, e.pos, counts) && Flat(outs) == Chunk(data, e.pos, Sum(counts))
      && last == e.(pos := e.pos + |Chunk(data, e.pos, Sum(counts))|)
    decreases |counts|
  {
    hide Chunk, Transfer, Advanced, Flat, Sum;
    PiecesMakeTheFile(data, e.pos, counts);
    SumInChunk(data, e.pos, counts);
    if |counts| > 0 {
      ReadOne(readAt, ms, e, counts[0], data);
      ReadsGiveTheFile(readAt, ms, Advanced(readAt, ms, e, counts[0]), counts[1..], data);
    }
  }

  class Vfs {
    const mounts: array<MountPoint>
    const files: array<FileEntry>
    const lookup: Lookup
    const inquire: Inquire
    const readAt: ReadAt

    // Descriptors of files and directories belong to a mount point.
    ghost predicate Valid()
      reads this, mounts, files
    {
      && mounts.Length == MAX_MOUNT_POINTS && files.Length == MAX_GLOBAL_FILES
      && forall fd: nat {:trigger files[fd]} :: fd < MAX_GLOBAL_FILES && files[fd].used && !files[fd].device ==>
           files[fd].instance < MAX_MOUNT_POINTS && files[fd].refs > 0
    }

    constructor (lookup: Lookup, inquire: Inquire, readAt: ReadAt)
      ensures Valid() && fresh(mounts) && fresh(files) && this.lookup == lookup && this.inquire == inquire
      ensures this.readAt == readAt
      ensures forall k: nat {:trigger mounts[k]} :: k < MAX_MOUNT_POINTS ==> !mounts[k].used
      ensures forall fd: nat {:trigger files[fd]} :: fd < MAX_GLOBAL_FILES ==> !files[fd].used
    {
      this.lookup, this.inquire, this.readAt := lookup, inquire, readAt;
      mounts := new MountPoint[MAX_MOUNT_POINTS](_ => MountPoint(false, 0, 0, 0, 0, 0, 0));
      files := new FileEntry[MAX_GLOBAL_FILES](_ => FileEntry(false, false, false, false, false, false, 0, 0, 0, 0, 0));
    }

    // ---- Resolving ----

    // _extract_component on the path from a position.
    method ExtractComponent(path: seq<Byte>, from: nat) returns (c: seq<Byte>, used: nat)
      requires from <= |path|
      ensures c == Component(path[from..]) && from + used <= |path| && path[from + used..] == After(path[from..])
      ensures from < |path| ==> used > 0
    {
      ghost var s := path[from..];
      var i := 0;
      c := [];
      while i < NAME_MAX && from + i < |path| && path[from + i] != SLASH
        invariant i <= NAME_MAX && from + i <= |path| && c == s[..i] && NameLength(s, i) == NameLength(s, 0)
      {
        assert s[i] == path[from + i] && s[..i + 1] == s[..i] + [s[i]];
        c := c + [path[from + i]];
        i := i + 1;
      }
      assert NameLength(s, 0) == i;
      used := if from + i < |path| then i + 1 else i;
    }

    // _is_mountpoint: -1 if none.
    method IsMountpoint(dev: nat, inode: nat) returns (mp: int)
      requires mounts.Length == MAX_MOUNT_POINTS
      ensures mp == if MountOn(mounts[..], dev, inode) < MAX_MOUNT_POINTS then MountOn(mounts[..], dev, inode) else -1
    {
      var i := 0;
      while i < MAX_MOUNT_POINTS
        invariant 0 <= i <= MAX_MOUNT_POINTS && forall k: nat {:trigger mounts[k]} :: k < i ==>
          !(mounts[k].used && mounts[k].dev == dev && mounts[k].inode == inode)
      {
        if mounts[i].used && mounts[i].dev == dev && mounts[i].inode == inode {
          FirstMount(mounts[..], dev, inode, i);
          return i;
        }
        i := i + 1;
      }
      FirstMount(mounts[..], dev, inode, i);
      mp := -1;
    }

    lemma FirstMount(ms: seq<MountPoint>, dev: nat, inode: nat, i: nat)
      requires i <= |ms| && forall k: nat {:trigger ms[k]} :: k < i ==>
        !(ms[k].used && ms[k].dev == dev && ms[k].inode == inode)
      requires i < |ms| ==> ms[i].used && ms[i].dev == dev && ms[i].inode == inode
      ensures MountOn(ms, dev, inode) == i
    {
      var j := MountOn(ms, dev, inode);
      assert j < |ms| ==> ms[j].used;
      assert i < |ms| ==> ms[i].used;
    }

    // The first component of an absolute path, and where the next one starts.
    method FirstComponent(path: seq<Byte>) returns (c: seq<Byte>, pos: nat)
      requires |path| > 0
      ensures pos <= |path| && Components(path[1..]) == [c] + Split(path[pos..])
    {
      var used;
      c, used := ExtractComponent(path, 1);
      pos := 1 + used;
      while pos < |path| && path[pos] == SLASH
        invariant pos <= |path| && SkipSlashes(path[pos..]) == SkipSlashes(After(path[1..]))
      {
        pos := pos + 1;
      }
    }

    // The loop of _resolv_ino, with component c of directory `dir0` to look up first.
    method Descend(path: seq<Byte>, pos0: nat, c0: seq<Byte>, mp0: nat, dir0: nat) returns (r: Resolved)
      requires Valid() && pos0 <= |path| && mp0 < MAX_MOUNT_POINTS
      ensures r == Walk(lookup, mounts[..], mp0, dir0, [c0] + Split(path[pos0..]))
      ensures r.At? ==> r.mp < MAX_MOUNT_POINTS
    {
      hide Component, After, Split, MountOn, TypeOf;
      var pos: nat, c, mp: nat, dir: nat, used := pos0, c0, mp0, dir0, 0;
      ghost var all := [c0] + Split(path[pos0..]);
      while pos < |path|
        invariant pos <= |path| && mp < MAX_MOUNT_POINTS
        invariant Walk(lookup, mounts[..], mp0, dir0, all) ==
          Walk(lookup, mounts[..], mp, dir, [c] + Split(path[pos..]))
      {
        OneStep(lookup, mounts[..], mp, dir, c, path[pos..]);
        var reply := lookup(mounts[mp].fs, mounts[mp].instance, dir, c);
        if reply.Fail? {
          return Error(reply.errno);
        }
        var at := IsMountpoint(reply.st.dev, reply.st.ino);
        if at >= 0 {
          mp := at;
          dir := mounts[mp].root;
        } else if TypeOf(reply.st.mode) == S_IFDIR {
          dir := reply.st.ino;
        } else {
          return Error(ENOTDIR);
        }
        c, used := ExtractComponent(path, pos);
        pos := pos + used;
      }
      LastStep(lookup, mounts[..], mp, dir, c, path[pos..]);
      var reply := lookup(mounts[mp].fs, mounts[mp].instance, dir, c);
      r := if reply.Fail? then Error(reply.errno) else At(mp, reply.st.ino);
    }

    // _resolv_ino.
    method Resolve(path: seq<Byte>, link: nat) returns (r: Resolved)
      requires Valid()
      ensures r == Meaning(lookup, mounts[..], path, link)
      ensures r.At? ==> r.mp < MAX_MOUNT_POINTS
      ensures r.At? ==> link < 32 && |path| > 0 && path[0] as char == '/' && HasRoot(mounts[..])
    {
      Refusals(lookup, mounts[..], path, link);
      if link >= 32 {
        return Error(EMLINK);
      }
      if |path| == 0 {
        return Error(EINVAL);
      }
      if path[0] != SLASH {
        return Error(ENOENT);
      }
      var i := IsMountpoint(NOWHERE, NOWHERE);
      if i < 0 {
        return Error(ENOENT);
      }
      var c, pos := FirstComponent(path);
      r := Descend(path, pos, c, i, 0);
    }

    lemma LastStep(lookup: Lookup, ms: seq<MountPoint>, mp: nat, dir: nat, c: seq<Byte>, s: seq<Byte>)
      requires mp < |ms| && |s| == 0
      ensures Walk(lookup, ms, mp, dir, [c] + Split(s)) ==
        match lookup(ms[mp].fs, ms[mp].instance, dir, c)
        case Fail(e) => Error(e)
        case Ok(st) => At(mp, st.ino)
    {
      assert [c] + Split(s) == [c];
    }

    lemma OneStep(lookup: Lookup, ms: seq<MountPoint>, mp: nat, dir: nat, c: seq<Byte>, s: seq<Byte>)
      requires mp < |ms| && |s| > 0
      ensures Walk(lookup, ms, mp, dir, [c] + Split(s)) ==
        match lookup(ms[mp].fs, ms[mp].instance, dir, c)
        case Fail(e) => Error(e)
        case Ok(st) =>
          var i := MountOn(ms, st.dev, st.ino);
          if i < |ms| then Walk(lookup, ms, i, ms[i].root, [Component(s)] + Split(After(s)))
          else if TypeOf(st.mode) == S_IFDIR then Walk(lookup, ms, mp, st.ino, [Component(s)] + Split(After(s)))
          else Error(ENOTDIR)
    {
      var cs := [c] + Split(s);
      assert cs[1..] == [Component(s)] + Split(After(s));
    }

    // ---- Descriptors ----

    // The first descriptor that was free.
    twostate predicate FirstFree(fd: int)
      requires files.Length == MAX_GLOBAL_FILES
      reads files
    {
      && 0 <= fd < MAX_GLOBAL_FILES && !old(files[fd].used)
      && forall k: nat {:trigger old(files[k])} :: k < fd ==> old(files[k]).used
    }

    // _alloc_file: the first free descriptor.
    method AllocFile() returns (fd: int)
      requires Valid()
      modifies files
      ensures fd == -EMFILE <==> forall k: nat {:trigger files[k]} :: k < MAX_GLOBAL_FILES ==> old(files[k].used)
      ensures fd == -EMFILE ==> files[..] == old(files[..])
      ensures fd != -EMFILE ==> FirstFree(fd) && files[..] == old(files[..])[fd := old(files[fd]).(used := true)]
    {
      var i := 0;
      while i < MAX_GLOBAL_FILES
        invariant 0 <= i <= MAX_GLOBAL_FILES && files[..] == old(files[..])
        invariant forall k: nat {:trigger files[k]} :: k < i ==> files[k].used
      {
        if !files[i].used {
          files[i] := files[i].(used := true);
          return i;
        }
        i := i + 1;
      }
      fd := -EMFILE;
    }

    // vfs_open: the descriptor, or an error.
    method Open(path: seq<Byte>) returns (fd: int)
      requires Valid()
      modifies mounts, files
      ensures Valid()
      ensures var o := OpeningOf(lookup, inquire, old(mounts[..]), path);
        && (o.Refused? ==> fd + o.errno == 0)
        && (o.Opens? ==>
          (fd == -EMFILE <==> forall k: nat {:trigger files[k]} :: k < MAX_GLOBAL_FILES ==> old(files[k].used)))
        && (o.Refused? || fd == -EMFILE ==> files[..] == old(files[..]) && mounts[..] == old(mounts[..]))
        && (o.Opens? && fd != -EMFILE ==>
              && FirstFree(fd)
              && files[..] == old(files[..])[fd := o.entry]
              && o.mp < MAX_MOUNT_POINTS && mounts[..] == old(mounts[..])[o.mp := Counted(old(mounts[o.mp]))])
      ensures OpeningOf(lookup, inquire, old(mounts[..]), path).Opens? ==>
        |path| > 0 && path[0] as char == '/' && HasRoot(old(mounts[..]))
    {
      hide HasRoot, Meaning, MountOn, TypeOf, Components, Walk;
      var r := Resolve(path, 0);
      if r.Error? {
        return 0 - r.errno;
      }
      var reply := inquire(mounts[r.mp].fs, mounts[r.mp].instance, r.inode);
      if reply.Fail? {
        return 0 - reply.errno;
      }
      var st := reply.st;
      fd := AllocFile();
      if fd < 0 {
        return;
      }
      var e := FileEntry(true, false, true, false, false, false, 0, files[fd].refs, st.mode, r.mp, st.ino);
      if TypeOf(st.mode) == S_IFBLK || TypeOf(st.mode) == S_IFCHR {
        e := e.(device := true, instance := st.rdev, write := true);
      } else if TypeOf(st.mode) == S_IFDIR {
        e := e.(directory := true);
      }
      files[fd] := e.(refs := 1);
      mounts[r.mp] := mounts[r.mp].(openFiles := mounts[r.mp].openFiles + 1);
    }

    // vfs_read of a file or directory.
    method Read(fd: int, count: nat) returns (err: int, out: seq<Byte>)
      requires Valid() && fd != -1 && (0 <= fd < MAX_GLOBAL_FILES && files[fd].used ==> !files[fd].device)
      modifies files
      ensures Valid()
      ensures fd < 0 || fd >= MAX_GLOBAL_FILES || !old(files[fd].used) ==> err == -EBADF && files[..] == old(files[..])
      ensures 0 <= fd < MAX_GLOBAL_FILES && old(files[fd].used) ==>
        && (err, out) == Transfer(readAt, mounts[..], old(files[fd]), count)
        && files[..] == old(files[..])[fd := Advanced(readAt, mounts[..], old(files[fd]), count)]
      ensures 0 <= fd < MAX_GLOBAL_FILES && old(files[fd].used) ==>
        var e := old(files[fd]);
        && files[..] == old(files[..])[fd := e.(pos := e.pos + |out|)]
        && (e.directory ==> err == -21 && out == [])
        && (!e.directory && !e.read ==> err == -13 && out == [])
        && (!e.directory && e.read ==>
          match readAt(mounts[e.instance].fs, mounts[e.instance].instance, e.inode, count, e.pos)
          case Bad(n) => err + n == 0 && out == []
          case Got(b) => err == |b| && out == b)
    {
      out := [];
      if fd < -1 || fd >= MAX_GLOBAL_FILES {
        return -EBADF, out;
      }
      if !files[fd].used {
        return -EBADF, out;
      }
      var mp := files[fd].instance;
      if files[fd].directory {
        return -EISDIR, out;
      }
      if !files[fd].read {
        return -EACCES, out;
      }
      match readAt(mounts[mp].fs, mounts[mp].instance, files[fd].inode, count, files[fd].pos) {
        case Bad(e) => err := 0 - e;
        case Got(b) => err, out := |b|, b;
      }
      if err > 0 {
        files[fd] := files[fd].(pos := files[fd].pos + err);
      }
    }

    // vfs_seek.
    method Seek(fd: nat, offset: int, whence: int) returns (err: int)
      requires Valid() && fd < MAX_GLOBAL_FILES && files[fd].used && !files[fd].device
      requires whence == 2 ==>
        inquire(mounts[files[fd].instance].fs, mounts[files[fd].instance].instance, files[fd].inode).Ok?
      modifies files
      ensures Valid()
      ensures err == if 0 <= whence <= 2 then 0 else -EINVAL
      ensures var e := old(files[fd]);
        var base :=
          if whence == 1 then e.pos
          else if whence == 2 then inquire(mounts[e.instance].fs, mounts[e.instance].instance, e.inode).st.size
          else 0;
        files[..] == old(files[..])[fd := if 0 <= whence <= 2 then e.(pos := base + offset) else e]
    {
      if whence == 0 {
        files[fd] := files[fd].(pos := offset);
        return 0;
      } else if whence == 1 {
        files[fd] := files[fd].(pos := files[fd].pos + offset);
        return 0;
      } else if whence == 2 {
        var st := inquire(mounts[files[fd].instance].fs, mounts[files[fd].instance].instance, files[fd].inode).st;
        files[fd] := files[fd].(pos := st.size + offset);
        return 0;
      } else {
        return -EINVAL;
      }
    }
  }
}
