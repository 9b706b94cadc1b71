// The romfs image format: a tree of named entries, how an image holds it, and a
// writer that lays a tree out depth first.
module RomfsFormat {
  import opened Bytes

  const NAME_MAX := 1024
  const UNIT := 16
  const MAX_IMAGE := 0x8000_0000

  const HARD_LINK := 0
  const DIRECTORY := 1
  const REGULAR := 2

  // A directory entry; Other is any kind that is neither directory nor regular file.
  datatype Entry = Entry(name: seq<Byte>, exec: bool, body: Body)
  datatype Body = Dir(entries: seq<Entry>) | File(data: seq<Byte>) | Other(kind: nat, special: nat, data: seq<Byte>)

  function Kind(b: Body): nat {
    match b
    case Dir(_) => DIRECTORY
    case File(_) => REGULAR
    case Other(k, _, _) => k
  }

  function Length(b: Body): nat {
    match b
    case Dir(_) => 0
    case File(d) => |d|
    case Other(_, _, d) => |d|
  }

  // ---- Words ----

  // A big-endian word.
  function Word(img: seq<Byte>, at: nat): nat
    requires at + 4 <= |img|
  {
    var a: nat, b: nat, c: nat, d: nat := img[at], img[at + 1], img[at + 2], img[at + 3];
    a * 0x100_0000 + b * 0x1_0000 + c * 0x100 + d
  }

  lemma WordBound(img: seq<Byte>, at: nat)
    requires at + 4 <= |img|
    ensures Word(img, at) < 0x1_0000_0000
  {
  }

  // The first byte is the highest.
  lemma WordBytes(img: seq<Byte>, at: nat)
    requires at + 4 <= |img|
    ensures Word(img, at) / 0x100_0000 == img[at] && Word(img, at) / 0x1_0000 % 0x100 == img[at + 1]
    ensures Word(img, at) / 0x100 % 0x100 == img[at + 2] && Word(img, at) % 0x100 == img[at + 3]
  {
    var a: nat, b: nat, c: nat, d: nat := img[at], img[at + 1], img[at + 2], img[at + 3];
    assert Word(img, at) / 0x100 == a * 0x1_0000 + b * 0x100 + c;
    assert Word(img, at) / 0x1_0000 == a * 0x100 + b;
  }

  // An encoded word read byte by byte.
  lemma EncodedBytes(v: nat)
    requires v < 0x1_0000_0000
    ensures var s := Encode(v);
      s[0] == v / 0x100_0000 && s[1] == v / 0x1_0000 % 0x100 && s[2] == v / 0x100 % 0x100 && s[3] == v % 0x100
  {
    WordBytes(Encode(v), 0);
  }

  function Encode(v: nat): (s: seq<Byte>)
    requires v < 0x1_0000_0000
    ensures |s| == 4 && Word(s, 0) == v
  {
    [v / 0x100_0000, v / 0x1_0000 % 0x100, v / 0x100 % 0x100, v % 0x100]
  }

  // ---- How an image holds a tree ----

  ghost predicate NameOk(name: seq<Byte>) { 0 !in name && |name| < NAME_MAX }

  // A zero-terminated name.
  predicate NameAt(img: seq<Byte>, at: nat, name: seq<Byte>) {
    at + |name| < |img| && img[at..at + |name|] == name && img[at + |name|] == 0
  }

  // Fields of the header at inode i, in units of 16 bytes.
  predicate InImage(img: seq<Byte>, i: nat) { UNIT * i + UNIT <= |img| }

  function NextOf(img: seq<Byte>, i: nat): nat
    requires InImage(img, i)
  {
    Word(img, UNIT * i) / UNIT
  }

  function FlagsOf(img: seq<Byte>, i: nat): Byte
    requires InImage(img, i)
  {
    img[UNIT * i + 3]
  }

  function SpecialOf(img: seq<Byte>, i: nat): nat
    requires InImage(img, i)
  {
    Word(img, UNIT * i + 4)
  }

  function SizeOf(img: seq<Byte>, i: nat): nat
    requires InImage(img, i)
  {
    Word(img, UNIT * i + 8)
  }

  // Units that n bytes take.
  function Units(n: nat): nat { (n + (UNIT - 1)) / UNIT }

  // The unit where the contents of the header at i begin.
  function ContentOf(i: nat, name: seq<Byte>): nat { i + 1 + Units(|name| + 1) }

  // Where the fields of a header lie: the link and the flags share its first
  // word, then come the special word and the size; the name follows 16 bytes
  // from the header's start, and the contents at the next multiple of 16.
  lemma HeaderLayout(img: seq<Byte>, i: nat, name: seq<Byte>)
    requires 16 * i + 16 <= |img|
    ensures InImage(img, i) && FlagsOf(img, i) == img[16 * i + 3]
    ensures NextOf(img, i) == Word(img[16 * i..16 * i + 4], 0) / 16
    ensures SpecialOf(img, i) == Word(img[16 * i + 4..16 * i + 8], 0)
    ensures SizeOf(img, i) == Word(img[16 * i + 8..16 * i + 12], 0)
    ensures 16 * i + 16 + |name| < 16 * ContentOf(i, name) <= 16 * i + 16 + |name| + 16
  {
    var u := Units(|name| + 1);
    assert |name| + 1 <= 16 * u < |name| + 1 + 16;
  }

  ghost predicate BytesAt(img: seq<Byte>, at: nat, s: seq<Byte>) {
    at + |s| <= |img| && img[at..at + |s|] == s
  }

  ghost predicate HeaderAt(img: seq<Byte>, root: nat, i: nat, e: Entry)
    decreases e
  {
    && root < i && InImage(img, i) && NameOk(e.name) && NameAt(img, UNIT * i + UNIT, e.name)
    && FlagsOf(img, i) % 8 == Kind(e.body) && (FlagsOf(img, i) / 8 % 2 == 1 <==> e.exec)
    && (e.body.Dir? || SizeOf(img, i) == Length(e.body))
    && match e.body
       case Dir(es) => ListAt(img, root, SpecialOf(img, i) / UNIT, es)
       case File(d) => BytesAt(img, UNIT * ContentOf(i, e.name), d)
       case Other(k, special, d) =>
         && k != DIRECTORY && k != REGULAR && SpecialOf(img, i) == special
         && BytesAt(img, UNIT * ContentOf(i, e.name), d)
  }

  // The chain of headers from inode i holds these entries, all of them behind
  // the root's header, and ends.
  ghost predicate ListAt(img: seq<Byte>, root: nat, i: nat, es: seq<Entry>)
    decreases es
  {
    if |es| == 0 then i == 0
    else HeaderAt(img, root, i, es[0]) && ListAt(img, root, NextOf(img, i), es[1..])
  }

  // ---- The writer ----

  function Zeros(n: nat): (s: seq<Byte>)
    ensures |s| == n
  {
    seq(n, _ => 0)
  }

  function Padded(s: seq<Byte>): (p: seq<Byte>)
    ensures |p| == UNIT * Units(|s|) && |s| <= |p| && p[..|s|] == s
  {
    s + Zeros(UNIT * Units(|s|) - |s|)
  }

  function EntryUnits(e: Entry): (n: nat)
    ensures n > 0
    decreases e
  {
    1 + Units(|e.name| + 1) +
    match e.body
    case Dir(es) => ListUnits(es)
    case File(d) => Units(|d|)
    case Other(_, _, d) => Units(|d|)
  }

  function ListUnits(es: seq<Entry>): nat
    decreases es
  {
    if |es| == 0 then 0 else EntryUnits(es[0]) + ListUnits(es[1..])
  }

  // Where a chain written at unit i starts: 0 when it is empty.
  function First(es: seq<Entry>, i: nat): nat { if |es| == 0 then 0 else i }

  // What a tree must satisfy to be written.
  ghost predicate EntryOk(e: Entry)
    decreases e
  {
    && NameOk(e.name) && Length(e.body) < MAX_IMAGE
    && match e.body
       case Dir(es) => ListOk(es)
       case File(_) => true
       case Other(k, special, _) => k < 8 && k != DIRECTORY && k != REGULAR && special < 0x1_0000_0000
  }

  ghost predicate ListOk(es: seq<Entry>)
    decreases es
  {
    |es| == 0 || (EntryOk(es[0]) && ListOk(es[1..]))
  }

  // The first word: where the next header is, the kind and the executable bit.
  function Link(e: Entry, next: nat): nat { Flags(next, Kind(e.body), e.exec) }

  function Flags(next: nat, kind: nat, exec: bool): nat { UNIT * next + kind + if exec then 8 else 0 }

  function Special(e: Entry, i: nat): nat {
    match e.body
    case Dir(es) => UNIT * First(es, ContentOf(i, e.name))
    case File(_) => 0
    case Other(_, special, _) => special
  }

  // The header of any checksum.
  function Header(link: nat, special: nat, length: nat, sum: nat): (s: seq<Byte>)
    requires link < 0x1_0000_0000 && special < 0x1_0000_0000 && length < 0x1_0000_0000
    ensures |s| == UNIT
  {
    Encode(link) + Encode(special) + Encode(length) + Encode(sum % 0x1_0000_0000)
  }

  // An entry at unit i, and everything below it.
  ghost function Write(e: Entry, i: nat, next: nat, sum: nat -> nat): (s: seq<Byte>)
    requires EntryOk(e) && next < MAX_IMAGE / UNIT && i + EntryUnits(e) <= MAX_IMAGE / UNIT
    ensures |s| == UNIT * EntryUnits(e)
    decreases e, 1
  {
    LinkFits(e, next);
    Header(Link(e, next), Special(e, i), Length(e.body), sum(i)) + Padded(e.name + [0]) + Content(e, i, sum)
  }

  ghost function Content(e: Entry, i: nat, sum: nat -> nat): (s: seq<Byte>)
    requires EntryOk(e) && i + EntryUnits(e) <= MAX_IMAGE / UNIT
    ensures |s| == UNIT * (EntryUnits(e) - 1 - Units(|e.name| + 1))
    decreases e, 0
  {
    match e.body
    case Dir(es) => WriteList(es, ContentOf(i, e.name), sum)
    case File(d) => Padded(d)
    case Other(_, _, d) => Padded(d)
  }

  ghost function WriteList(es: seq<Entry>, i: nat, sum: nat -> nat): (s: seq<Byte>)
    requires ListOk(es) && i + ListUnits(es) <= MAX_IMAGE / UNIT
    ensures |s| == UNIT * ListUnits(es)
    decreases es
  {
    if |es| == 0 then []
    else
      assert |es| > 1 ==> EntryUnits(es[1]) > 0 && ListUnits(es[1..]) >= EntryUnits(es[1]);
      Write(es[0], i, First(es[1..], i + EntryUnits(es[0])), sum) + WriteList(es[1..], i + EntryUnits(es[0]), sum)
  }

  lemma LinkFits(e: Entry, next: nat)
    requires EntryOk(e) && next < MAX_IMAGE / UNIT
    ensures Kind(e.body) < 8 && Link(e, next) < 0x1_0000_0000 && Link(e, next) / UNIT == next
    ensures Link(e, next) % 8 == Kind(e.body) && (Link(e, next) / 8 % 2 == 1 <==> e.exec)
  {
    FlagParts(next, Kind(e.body), if e.exec then 1 else 0);
  }

  lemma FlagParts(n: nat, k: nat, x: nat)
    requires k < 8 && x < 2
    ensures (16 * n + k + 8 * x) / 16 == n && (16 * n + k + 8 * x) % 8 == k && (16 * n + k + 8 * x) / 8 % 2 == x
  {
    assert (16 * n + k + 8 * x) / 8 == 2 * n + x;
  }

  // ---- What was written can be read ----

  lemma BytesSplit(img: seq<Byte>, at: nat, a: seq<Byte>, b: seq<Byte>)
    requires BytesAt(img, at, a + b)
    ensures BytesAt(img, at, a) && BytesAt(img, at + |a|, b)
  {
    assert img[at..at + |a + b|][..|a|] == a;
    assert img[at..at + |a + b|][|a|..] == b;
  }

  lemma WordHeld(img: seq<Byte>, at: nat, v: nat)
    requires v < 0x1_0000_0000 && BytesAt(img, at, Encode(v))
    ensures at + 4 <= |img| && Word(img, at) == v && img[at + 3] == v % 0x100
  {
    var s := Encode(v);
    assert img[at] == s[0] && img[at + 1] == s[1] && img[at + 2] == s[2] && img[at + 3] == s[3];
  }

  lemma HeaderHeld(img: seq<Byte>, i: nat, next: nat, kind: nat, exec: bool, special: nat, length: nat, sum: nat)
    requires Flags(next, kind, exec) < 0x1_0000_0000 && special < 0x1_0000_0000 && length < 0x1_0000_0000 && kind < 8
    requires BytesAt(img, UNIT * i, Header(Flags(next, kind, exec), special, length, sum))
    ensures InImage(img, i) && NextOf(img, i) == next && SpecialOf(img, i) == special && SizeOf(img, i) == length
    ensures FlagsOf(img, i) % 8 == kind && (FlagsOf(img, i) / 8 % 2 == 1 <==> exec)
  {
    var a, b, c, d := Encode(Flags(next, kind, exec)), Encode(special), Encode(length), Encode(sum % 0x1_0000_0000);
    BytesSplit(img, UNIT * i, a + b + c, d);
    BytesSplit(img, UNIT * i, a + b, c);
    BytesSplit(img, UNIT * i, a, b);
    WordHeld(img, UNIT * i, Flags(next, kind, exec));
    WordHeld(img, UNIT * i + 4, special);
    WordHeld(img, UNIT * i + 8, length);
    FlagParts(next, kind, if exec then 1 else 0);
    LowByte(Flags(next, kind, exec));
  }

  lemma Parts8(x: nat, a: nat, b: nat)
    requires x == 8 * a + b && b < 8
    ensures x / 8 == a && x % 8 == b
  {
  }

  lemma Parts2(x: nat, a: nat, b: nat)
    requires x == 2 * a + b && b < 2
    ensures x / 2 == a && x % 2 == b
  {
  }

  lemma LowByte(v: nat)
    ensures v % 0x100 % 8 == v % 8 && v % 0x100 / 8 % 2 == v / 8 % 2
  {
    var q, r := v / 0x100, v % 0x100;
    Parts8(v, 32 * q + r / 8, r % 8);
    Parts2(32 * q + r / 8, 16 * q + r / 8 / 2, r / 8 % 2);
  }

  lemma NameHeld(img: seq<Byte>, at: nat, name: seq<Byte>)
    requires BytesAt(img, at, Padded(name + [0]))
    ensures NameAt(img, at, name)
  {
    var p := Padded(name + [0]);
    assert p[..|name| + 1] == name + [0];
    assert p == p[..|name| + 1] + p[|name| + 1..];
    BytesSplit(img, at, name + [0], p[|name| + 1..]);
    BytesSplit(img, at, name, [0]);
    assert img[at + |name|..at + |name| + 1][0] == 0;
  }

  lemma PaddedHeld(img: seq<Byte>, at: nat, d: seq<Byte>)
    requires BytesAt(img, at, Padded(d))
    ensures BytesAt(img, at, d)
  {
    BytesSplit(img, at, d, Zeros(UNIT * Units(|d|) - |d|));
  }

  lemma PartsHeld(img: seq<Byte>, e: Entry, i: nat, next: nat, sum: nat -> nat)
    requires EntryOk(e) && next < MAX_IMAGE / UNIT && i + EntryUnits(e) <= MAX_IMAGE / UNIT
    requires BytesAt(img, UNIT * i, Write(e, i, next, sum))
    ensures Special(e, i) < 0x1_0000_0000 && Link(e, next) < 0x1_0000_0000
    ensures BytesAt(img, UNIT * i, Header(Link(e, next), Special(e, i), Length(e.body), sum(i)))
    ensures BytesAt(img, UNIT * i + UNIT, Padded(e.name + [0]))
    ensures BytesAt(img, UNIT * ContentOf(i, e.name), Content(e, i, sum))
  {
    LinkFits(e, next);
    var head, name := Header(Link(e, next), Special(e, i), Length(e.body), sum(i)), Padded(e.name + [0]);
    BytesSplit(img, UNIT * i, head + name, Content(e, i, sum));
    BytesSplit(img, UNIT * i, head, name);
  }

  // A tree written anywhere in an image is held there, whatever the checksums.
  lemma {:induction false} WrittenIsHeld(img: seq<Byte>, root: nat, e: Entry, i: nat, next: nat, sum: nat -> nat)
    requires EntryOk(e) && root < i && next < MAX_IMAGE / UNIT && i + EntryUnits(e) <= MAX_IMAGE / UNIT
    requires BytesAt(img, UNIT * i, Write(e, i, next, sum))
    ensures HeaderAt(img, root, i, e) && NextOf(img, i) == next
    decreases e
  {
    hide Header, Encode, Word, BytesAt, Padded, NameAt, FlagsOf, SizeOf, NextOf, SpecialOf, Flags, Write;
    PartsHeld(img, e, i, next, sum);
    LinkFits(e, next);
    HeaderHeld(img, i, next, Kind(e.body), e.exec, Special(e, i), Length(e.body), sum(i));
    NameHeld(img, UNIT * i + UNIT, e.name);
    match e.body
    case Dir(es) => ListIsHeld(img, root, es, ContentOf(i, e.name), sum);
    case File(d) => PaddedHeld(img, UNIT * ContentOf(i, e.name), d);
    case Other(_, _, d) => PaddedHeld(img, UNIT * ContentOf(i, e.name), d);
  }

  lemma {:induction false} ListIsHeld(img: seq<Byte>, root: nat, es: seq<Entry>, i: nat, sum: nat -> nat)
    requires ListOk(es) && root < i && i + ListUnits(es) <= MAX_IMAGE / UNIT
    requires BytesAt(img, UNIT * i, WriteList(es, i, sum))
    ensures ListAt(img, root, First(es, i), es)
    decreases es
  {
    hide HeaderAt, Write, EntryUnits, EntryOk, NextOf;
    if |es| > 0 {
      var after := i + EntryUnits(es[0]);
      assert |es| > 1 ==> EntryUnits(es[1]) > 0 && ListUnits(es[1..]) >= EntryUnits(es[1]);
      BytesSplit(img, UNIT * i, Write(es[0], i, First(es[1..], after), sum), WriteList(es[1..], after, sum));
      WrittenIsHeld(img, root, es[0], i, First(es[1..], after), sum);
      ListIsHeld(img, root, es[1..], after, sum);
    }
  }

  // ---- Whole images ----

  // "-rom1fs-".
  const MAGIC: seq<Byte> := [0x2D, 0x72, 0x6F, 0x6D, 0x31, 0x66, 0x73, 0x2D]

  // A file system: the volume's name, the name in the root's own header, and
  // the entries of the root.
  datatype Volume = Volume(title: seq<Byte>, rootName: seq<Byte>, rootExec: bool, entries: seq<Entry>)

  function RootOf(v: Volume): nat { 1 + Units(|v.title| + 1) }

  // The chain of the root starts with the root's header.
  ghost predicate RootAt(img: seq<Byte>, root: nat, v: Volume) {
    && 0 < root && InImage(img, root) && NameOk(v.rootName) && NameAt(img, UNIT * root + UNIT, v.rootName)
    && FlagsOf(img, root) % 8 == DIRECTORY && (FlagsOf(img, root) / 8 % 2 == 1 <==> v.rootExec)
    && ListAt(img, root, NextOf(img, root), v.entries)
  }

  ghost predicate VolumeAt(img: seq<Byte>, v: Volume) {
    BytesAt(img, 0, MAGIC) && 0 !in v.title && NameAt(img, UNIT, v.title) && RootAt(img, RootOf(v), v)
  }

  ghost predicate VolumeOk(v: Volume) {
    && 0 !in v.title && NameOk(v.rootName) && ListOk(v.entries)
    && FirstUnit(v) + ListUnits(v.entries) < MAX_IMAGE / UNIT
  }

  // The superblock and the volume's name.
  function Super(v: Volume, size: nat, sum: nat): (s: seq<Byte>)
    requires size < 0x1_0000_0000
    ensures |s| == UNIT * RootOf(v)
  {
    MAGIC + Encode(size) + Encode(sum % 0x1_0000_0000) + Padded(v.title + [0])
  }

  // The root's header: a directory that points to itself.
  function RootHeader(v: Volume, sum: nat): (s: seq<Byte>)
    requires FirstUnit(v) < MAX_IMAGE / UNIT
    ensures |s| == UNIT
  {
    Header(Flags(First(v.entries, FirstUnit(v)), DIRECTORY, v.rootExec), UNIT * RootOf(v), 0, sum)
  }

  function FirstUnit(v: Volume): nat { ContentOf(RootOf(v), v.rootName) }

  // The image, without padding at its end.
  ghost function Image(v: Volume, sum: nat -> nat): seq<Byte>
    requires VolumeOk(v)
  {
    Super(v, UNIT * (FirstUnit(v) + ListUnits(v.entries)), sum(0))
    + RootHeader(v, sum(RootOf(v))) + Padded(v.rootName + [0])
    + WriteList(v.entries, FirstUnit(v), sum)
  }

  lemma SuperHeld(img: seq<Byte>, v: Volume, size: nat, sum: nat)
    requires size < 0x1_0000_0000 && BytesAt(img, 0, Super(v, size, sum))
    ensures BytesAt(img, 0, MAGIC) && NameAt(img, UNIT, v.title)
  {
    hide BytesAt, Encode, Padded, NameAt;
    BytesSplit(img, 0, MAGIC + Encode(size) + Encode(sum % 0x1_0000_0000), Padded(v.title + [0]));
    BytesSplit(img, 0, MAGIC + Encode(size), Encode(sum % 0x1_0000_0000));
    BytesSplit(img, 0, MAGIC, Encode(size));
    NameHeld(img, UNIT, v.title);
  }

  lemma ImageParts(img: seq<Byte>, v: Volume, sum: nat -> nat)
    requires VolumeOk(v) && BytesAt(img, 0, Image(v, sum))
    ensures BytesAt(img, 0, Super(v, UNIT * (FirstUnit(v) + ListUnits(v.entries)), sum(0)))
    ensures BytesAt(img, UNIT * RootOf(v), RootHeader(v, sum(RootOf(v))))
    ensures BytesAt(img, UNIT * RootOf(v) + UNIT, Padded(v.rootName + [0]))
    ensures BytesAt(img, UNIT * FirstUnit(v), WriteList(v.entries, FirstUnit(v), sum))
  {
    hide BytesAt, Encode, Padded, WriteList, Super, RootHeader;
    var super, head := Super(v, UNIT * (FirstUnit(v) + ListUnits(v.entries)), sum(0)), RootHeader(v, sum(RootOf(v)));
    var name, list := Padded(v.rootName + [0]), WriteList(v.entries, FirstUnit(v), sum);
    BytesSplit(img, 0, super + head + name, list);
    BytesSplit(img, 0, super + head, name);
    BytesSplit(img, 0, super, head);
  }

  // Whatever follows it and whatever its checksums, the image holds the volume.
  lemma ImageHolds(v: Volume, sum: nat -> nat, pad: seq<Byte>)
    requires VolumeOk(v)
    ensures VolumeAt(Image(v, sum) + pad, v)
  {
    hide Encode, Word, Padded, WriteList, Image, NameAt, ListAt, FlagsOf, SpecialOf, NextOf, SizeOf, Super, Header;
    var img, root := Image(v, sum) + pad, RootOf(v);
    ImageParts(img, v, sum);
    SuperHeld(img, v, UNIT * (FirstUnit(v) + ListUnits(v.entries)), sum(0));
    var next := First(v.entries, FirstUnit(v));
    FlagParts(next, DIRECTORY, if v.rootExec then 1 else 0);
    HeaderHeld(img, root, next, DIRECTORY, v.rootExec, UNIT * root, 0, sum(root));
    NameHeld(img, UNIT * root + UNIT, v.rootName);
    ListIsHeld(img, root, v.entries, FirstUnit(v), sum);
  }
}
