// Files of a romfs volume, opened by path and read in pieces.
module RomfsFiles {
  import opened Bytes
  import opened Errno
  import opened RomfsFormat
  import opened RomfsTree
  import opened Romfs
  import opened Paths
  import opened Vfs

  // The images of the devices, and the instances mounted.
  datatype World = World(images: map<nat, seq<Byte>>, instances: seq<Instance>)

  predicate Mounted(w: World, instance: nat) {
    instance < |w.instances| && w.instances[instance].used && w.instances[instance].device in w.images
  }

  // The driver's operations as the file system `type` of the table.
  function LookupOf(w: World, fsType: nat): Lookup {
    (fs: nat, instance: nat, ino: nat, name: seq<Byte>) =>
      if fs == fsType && Mounted(w, instance) then
        var i := w.instances[instance];
        LookupAt(w.images[i.device], i.root, i.device, ino, name)
      else Fail(ENODEV)
  }

  function InquireOf(w: World, fsType: nat): Inquire {
    (fs: nat, instance: nat, ino: nat) =>
      if fs == fsType && Mounted(w, instance) then
        StatAt(w.images[w.instances[instance].device], w.instances[instance].root, w.instances[instance].device, ino)
      else Fail(ENODEV)
  }

  function ReadOf(w: World, fsType: nat): ReadAt {
    (fs: nat, instance: nat, ino: nat, count: nat, pos: int) =>
      if fs == fsType && Mounted(w, instance) then
        BytesOf(w.images[w.instances[instance].device], w.instances[instance].root, ino, count, pos)
      else Bad(ENODEV)
  }

  // Volume v is mounted as the instance.
  ghost predicate Carries(w: World, instance: nat, v: Volume) {
    Mounted(w, instance) && RootAt(w.images[w.instances[instance].device], w.instances[instance].root, v)
  }

  // The driver answers for the volume.
  lemma DriverAnswers(w: World, fsType: nat, instance: nat, v: Volume)
    requires Carries(w, instance, v)
    ensures var i := w.instances[instance];
      Answers(LookupOf(w, fsType), fsType, instance, i.device, w.images[i.device], i.root, v)
  {
    hide RootAt, NodeAt, LookupAt, Answered, Step;
    var i := w.instances[instance];
    var img := w.images[i.device];
    forall ino: nat, n: Node, name: seq<Byte>
      ensures AnswersAt(LookupOf(w, fsType), fsType, instance, i.device, img, i.root, v, ino, n, name)
    {
      if NodeAt(img, i.root, ino, n) && 0 !in name { LookupAnswers(img, i.root, i.device, v, ino, n, name); }
    }
  }

  // The driver's reads give the data of a node.
  lemma DriverHolds(w: World, fsType: nat, instance: nat, v: Volume, ino: nat, e: Entry)
    requires Carries(w, instance, v) && !e.body.Dir? && |e.name| < 272
    requires NodeAt(w.images[w.instances[instance].device], w.instances[instance].root, ino, Inner(e))
    ensures Holds(ReadOf(w, fsType), fsType, instance, ino, e.body.data)
  {
    hide RootAt, NodeAt, BytesOf;
    var i := w.instances[instance];
    forall count: nat, pos: nat | pos <= |e.body.data|
      ensures ReadOf(w, fsType)(fsType, instance, ino, count, pos) == Got(Chunk(e.body.data, pos, count))
    {
      BytesAnswer(w.images[i.device], i.root, ino, e, count, pos);
    }
  }

  // The mount table has volume v as its root and nothing mounted on it.
  ghost predicate RootVolume(w: World, fsType: nat, mounts: seq<MountPoint>, v: Volume) {
    var i := MountOn(mounts, NOWHERE, NOWHERE);
    && i < |mounts| && mounts[i].fs == fsType && Carries(w, mounts[i].instance, v)
    && Bare(mounts, w.instances[mounts[i].instance].device)
  }

  // What a path of plain names opens.
  lemma OpensNode(w: World, fsType: nat, mounts: seq<MountPoint>, v: Volume, names: seq<seq<Byte>>, end: seq<Byte>)
    requires RootVolume(w, fsType, mounts, v) && |names| > 0 && AllPlain(names) && (end == [] || end == [SLASH])
    ensures var o := OpeningOf(LookupOf(w, fsType), InquireOf(w, fsType), mounts, [SLASH] + Join(names) + end);
      var i := MountOn(mounts, NOWHERE, NOWHERE);
      match Follow(v, Root, names)
      case Missing(e) => o == Refused(e)
      case Found(n) => OpensAt(w, o, i, mounts[i].instance, n)
  {
    hide RootAt, NodeAt, LookupAt, StatAt, Follow, Meaning, Walk, Plain, Join, Answers, Uncovered, Describes;
    var i := MountOn(mounts, NOWHERE, NOWHERE);
    var q := w.instances[mounts[i].instance];
    var img := w.images[q.device];
    DriverAnswers(w, fsType, mounts[i].instance, v);
    PlainAreStrings(names);
    RootIsNode(img, q.root);
    BareIsUncovered(LookupOf(w, fsType), mounts, fsType, mounts[i].instance, 0, names, q.device, img, q.root, v, Root);
    PathDenotesNode(LookupOf(w, fsType), mounts, names, end, q.device, img, q.root, v);
    match Follow(v, Root, names)
    case Missing(_) =>
    case Found(n) =>
      var ino := Meaning(LookupOf(w, fsType), mounts, [SLASH] + Join(names) + end, 0).inode;
      StatDescribes(img, q.root, q.device, v, ino, n);
      DescribesType(v, n, StatAt(img, q.root, q.device, ino).st);
  }

  lemma RootIsNode(img: seq<Byte>, root: nat)
    ensures NodeAt(img, root, 0, Root)
  {
  }

  lemma DescribesType(v: Volume, n: Node, st: Stat)
    requires Describes(v, n, st)
    ensures TypeOf(st.mode) == NodeType(n)
  {
  }

  // A fresh descriptor of node n: a directory exactly if n is one, a device
  // exactly if n is one.
  ghost predicate OpensAt(w: World, o: Opening, mp: nat, instance: nat, n: Node) {
    && o.Opens? && o.mp == mp && o.entry.used && o.entry.read && o.entry.pos == 0 && o.entry.refs == 1
    && (o.entry.directory <==> NodeType(n) == S_IFDIR)
    && (o.entry.device <==> NodeType(n) == S_IFBLK || NodeType(n) == S_IFCHR)
    && (!o.entry.device ==> o.entry.instance == mp)
    && Mounted(w, instance)
    && NodeAt(w.images[w.instances[instance].device], w.instances[instance].root, o.entry.inode, n)
  }

  // The data read through a descriptor, opened by path, in pieces of these
  // sizes; then `more` pieces.
  lemma FileIsRead(w: World, fsType: nat, mounts: seq<MountPoint>, v: Volume, names: seq<seq<Byte>>, end: seq<Byte>,
      counts: seq<nat>, more: seq<nat>)
    requires RootVolume(w, fsType, mounts, v) && |names| > 0 && AllPlain(names) && (end == [] || end == [SLASH])
    requires var a := Follow(v, Root, names);
      a.Found? && a.node.Inner? && a.node.entry.body.File? && |a.node.entry.name| < 272
    ensures var o := OpeningOf(LookupOf(w, fsType), InquireOf(w, fsType), mounts, [SLASH] + Join(names) + end);
      var data := Follow(v, Root, names).node.entry.body.data;
      && o.Opens? && !o.entry.directory && !o.entry.device && o.entry.instance < |mounts|
      && var (outs, last) := Reads(ReadOf(w, fsType), mounts, o.entry, counts);
      && Flat(outs) == (if Sum(counts) < |data| then data[..Sum(counts)] else data)
      && last.pos == |Flat(outs)| && last.instance < |mounts|
      && (Sum(counts) >= |data| ==>
            var (rest, _) := Reads(ReadOf(w, fsType), mounts, last, more);
            |rest| == |more| && forall k: nat {:trigger rest[k]} :: k < |more| ==> rest[k] == [])
  {
    hide RootAt, NodeAt, LookupOf, InquireOf, ReadOf, Follow, Meaning, Plain, Join, OpeningOf, Reads, Holds, Chunks;
    hide Flat, MountOn;
    OpensNode(w, fsType, mounts, v, names, end);
    var o := OpeningOf(LookupOf(w, fsType), InquireOf(w, fsType), mounts, [SLASH] + Join(names) + end);
    var e := Follow(v, Root, names).node.entry;
    var data := e.body.data;
    DriverHolds(w, fsType, mounts[o.mp].instance, v, o.entry.inode, e);
    ReadsGiveTheFile(ReadOf(w, fsType), mounts, o.entry, counts, data);
    var (outs, last) := Reads(ReadOf(w, fsType), mounts, o.entry, counts);
    if Sum(counts) >= |data| { EndIsEnd(ReadOf(w, fsType), mounts, last, more, data); }
  }

  // At the end of a file every further read is empty.
  lemma EndIsEnd(readAt: ReadAt, mounts: seq<MountPoint>, e: FileEntry, more: seq<nat>, data: seq<Byte>)
    requires e.instance < |mounts| && e.read && !e.directory && e.pos == |data|
    requires Holds(readAt, mounts[e.instance].fs, mounts[e.instance].instance, e.inode, data)
    ensures var (rest, _) := Reads(readAt, mounts, e, more);
      |rest| == |more| && forall k: nat {:trigger rest[k]} :: k < |more| ==> rest[k] == []
  {
    hide Reads, Holds, Chunks, Flat;
    ReadsGiveTheFile(readAt, mounts, e, more, data);
    ChunksLength(data, |data|, more);
    forall k: nat | k < |more| ensures Chunks(data, |data|, more)[k] == [] {
      NothingAfterTheEnd(data, more, k);
    }
  }

  lemma {:induction false} ChunksLength(data: seq<Byte>, pos: nat, counts: seq<nat>)
    requires pos <= |data|
    ensures |Chunks(data, pos, counts)| == |counts|
    decreases |counts|
  {
    if |counts| > 0 { ChunksLength(data, pos + |Chunk(data, pos, counts[0])|, counts[1..]); }
  }

  // From the tree to the bytes: a volume written as an image, mounted as the
  // root, opened by path and read in pieces gives every file's data.
  lemma WrittenFileIsRead(w: World, fsType: nat, mounts: seq<MountPoint>, v: Volume, sum: nat -> nat, pad: seq<Byte>,
      dev: nat, q: nat,
      names: seq<seq<Byte>>, end: seq<Byte>, counts: seq<nat>)
    requires VolumeOk(v) && dev in w.images && w.images[dev] == Image(v, sum) + pad
    requires q < |w.instances| && w.instances[q] == Instance(true, dev, RootOf(v))
    requires var i := MountOn(mounts, NOWHERE, NOWHERE);
      i < |mounts| && mounts[i].fs == fsType && mounts[i].instance == q && Bare(mounts, dev)
    requires |names| > 0 && AllPlain(names) && (end == [] || end == [SLASH])
    requires var a := Follow(v, Root, names);
      a.Found? && a.node.Inner? && a.node.entry.body.File? && |a.node.entry.name| < 272
    ensures var o := OpeningOf(LookupOf(w, fsType), InquireOf(w, fsType), mounts, [SLASH] + Join(names) + end);
      var data := Follow(v, Root, names).node.entry.body.data;
      && o.Opens? && o.entry.instance < |mounts|
      && Flat(Reads(ReadOf(w, fsType), mounts, o.entry, counts).0) ==
        (if Sum(counts) < |data| then data[..Sum(counts)] else data)
  {
    hide RootAt, LookupOf, InquireOf, ReadOf, Follow, Plain, Join, OpeningOf, Reads, Flat, MountOn, Image, VolumeOk;
    ImageHolds(v, sum, pad);
    FileIsRead(w, fsType, mounts, v, names, end, counts, []);
  }
}
