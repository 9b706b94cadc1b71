// Machine words, page frames and the 68040 table descriptors, laid out as in
// section 3 (Memory Management Unit) of the MC68040 User's Manual.
module Descriptors {

  type PageNumber = n: nat | n < 0x100000

  type Nibble = n: nat | n < 16
  type TwoBits = n: nat | n < 4

  // The low 12 bits of a word, cut at every boundary of a descriptor field:
  // bits 11-8 (UR, G, U1, U0), 7 (S), 6-5 (CM), 4 (M), 3 (U), 2 (W), 1-0 (type).
  datatype Low = Low(upper: Nibble, s: bool, cm: TwoBits, m: bool, u: bool, w: bool, t: TwoBits)

  const ZERO := Low(0, false, 0, false, false, false, 0)

  // A 32-bit word, or a physical address: page * 4096 plus the value of low.
  datatype Word = Word(page: PageNumber, low: Low)

  const NULL := Word(0, ZERO)

  // The value of bits 7-0.
  function LastByte(l: Low): (b: nat)
    ensures b < 256
  {
    (if l.s then 128 else 0) + l.cm * 32
    + (if l.m then 16 else 0) + (if l.u then 8 else 0) + (if l.w then 4 else 0) + l.t
  }

  // An address's offset in its page.
  function Offset(w: Word): (o: nat)
    ensures o < 4096 && (w.low == ZERO ==> o == 0)
  {
    w.low.upper * 256 + LastByte(w.low)
  }

  const FRAME_WORDS := 1024
  const ROOT_ENTRIES := 128
  const POINTER_ENTRIES := 128
  const PAGE_ENTRIES := 64

  // Frame numbers of the 64 MB of DRAM at 0x80000000.
  const FIRST_FRAME: nat := 0x80000
  const LIMIT_FRAME: nat := 0x84000

  type Frame = s: seq<Word> | |s| == 1024 witness seq(1024, _ => NULL)

  function ZeroFrame(): (z: Frame)
    ensures forall x | 0 <= x < 1024 :: z[x] == NULL
  {
    seq(1024, _ => NULL)
  }

  // Physical memory, frame by frame.
  type Memory = map<nat, Frame>

  function Read(mem: Memory, f: nat, x: nat): Word {
    if f in mem && x < 1024 then mem[f][x] else NULL
  }

  function Write(mem: Memory, f: nat, x: nat, w: Word): Memory {
    if f in mem && x < 1024 then mem[f := mem[f][x := w]] else mem
  }

  // The physical address of a frame.
  function AddressOf(f: nat): Word {
    if f < 0x100000 then Word(f, ZERO) else NULL
  }

  // Levels of a translation tree: root table, pointer table, page table, page.
  const ROOT := 0
  const POINTERS := 1
  const TABLE := 2
  const PAGE := 3

  function Entries(level: nat): nat {
    if level == 0 then ROOT_ENTRIES
    else if level == 1 then POINTER_ENTRIES
    else if level == 2 then PAGE_ENTRIES
    else 0
  }

  // Descriptor types.
  const UPPER_INVALID: TwoBits := 0
  const UPPER_RESIDENT: TwoBits := 2
  const UPPER_RESIDENT_ALT: TwoBits := 3
  const PAGE_INVALID: TwoBits := 0
  const PAGE_RESIDENT: TwoBits := 1
  const PAGE_RESIDENT_ALT: TwoBits := 3

  // Cache modes.
  const COPY_BACK: TwoBits := 1

  predicate UpperResident(w: Word) {
    w.low.t == UPPER_RESIDENT || w.low.t == UPPER_RESIDENT_ALT
  }

  predicate PageResident(w: Word) {
    w.low.t == PAGE_RESIDENT || w.low.t == PAGE_RESIDENT_ALT
  }

  predicate Resident(level: nat, w: Word) {
    if level < 2 then UpperResident(w) else PageResident(w)
  }

  // The table_address field is 23 bits wide in a root descriptor, 25 bits wide
  // in a pointer descriptor; physical_address is 20 bits wide in a page
  // descriptor.
  function RootTableAddress(w: Word): Word {
    w.(low := ZERO.(upper := w.low.upper / 2 * 2))
  }

  function PointerTableAddress(w: Word): Word {
    w.(low := ZERO.(upper := w.low.upper, s := w.low.s))
  }

  function PageAddress(w: Word): Word {
    w.(low := ZERO)
  }

  // The bit of each field, by its mask.
  lemma FieldMasks(k: TwoBits)
    ensures LastByte(ZERO.(s := true)) == 0x80 && LastByte(ZERO.(cm := k)) == 0x20 * k
    ensures LastByte(ZERO.(m := true)) == 0x10 && LastByte(ZERO.(u := true)) == 0x08
    ensures LastByte(ZERO.(w := true)) == 0x04 && LastByte(ZERO.(t := k)) == k
  {
  }

  lemma Floor512(x: nat, q: nat, r: nat)
    requires x == 512 * q + r && r < 512
    ensures x / 512 * 512 == x - r
  {
  }

  lemma Floor128(x: nat, q: nat, r: nat)
    requires x == 128 * q + r && r < 128
    ensures x / 128 * 128 == x - r
  {
  }

  // The address fields leave out the low 9, 7 and 12 bits.
  lemma TableAddresses(w: Word)
    ensures RootTableAddress(w).page == PointerTableAddress(w).page == PageAddress(w).page == w.page
    ensures Offset(RootTableAddress(w)) == Offset(w) / 512 * 512
    ensures Offset(PointerTableAddress(w)) == Offset(w) / 128 * 128
    ensures Offset(PageAddress(w)) == 0
  {
    RootAddress(w);
    PointerAddress(w);
  }

  lemma RootAddress(w: Word)
    ensures Offset(RootTableAddress(w)) == Offset(w) / 512 * 512
  {
    var u: nat, b: nat := w.low.upper, LastByte(w.low);
    Floor512(Offset(w), u / 2, u % 2 * 256 + b);
  }

  lemma PointerAddress(w: Word)
    ensures Offset(PointerTableAddress(w)) == Offset(w) / 128 * 128
  {
    var u: nat, b: nat, s: nat := w.low.upper, LastByte(w.low), if w.low.s then 1 else 0;
    assert s * 128 <= b < s * 128 + 128;
    Floor128(Offset(w), 2 * u + s, b - s * 128);
  }

  // The descriptor names the first byte of a frame.
  predicate Aligned(level: nat, w: Word) {
    if level == 0 then w.low.upper < 2
    else if level == 1 then w.low.upper == 0 && !w.low.s
    else true
  }

  // Bit-field stores into a descriptor.
  function SetRootTableAddress(w: Word, ph: Word): Word {
    Word(ph.page, w.low.(upper := ph.low.upper / 2 * 2 + w.low.upper % 2))
  }

  function SetPointerTableAddress(w: Word, ph: Word): Word {
    Word(ph.page, w.low.(upper := ph.low.upper, s := ph.low.s))
  }

  function SetPageAddress(w: Word, ph: Word): Word {
    w.(page := ph.page)
  }

  function SetType(w: Word, t: TwoBits): Word {
    w.(low := w.low.(t := t))
  }

  function SetWriteProtected(w: Word, b: bool): Word {
    w.(low := w.low.(w := b))
  }

  function SetCacheMode(w: Word, cm: TwoBits): Word {
    w.(low := w.low.(cm := cm))
  }

  function SetSupervisor(w: Word, b: bool): Word {
    w.(low := w.low.(s := b))
  }

  // What the stores of a fresh frame's address leave in a descriptor.
  lemma RootDescriptor(w: Word, f: PageNumber)
    ensures var d := SetType(SetRootTableAddress(w, AddressOf(f)), UPPER_RESIDENT);
      UpperResident(d) && Aligned(ROOT, d) && d.page == f
  {
  }

  lemma PointerDescriptor(w: Word, f: PageNumber)
    ensures var d := SetType(SetPointerTableAddress(w, AddressOf(f)), UPPER_RESIDENT);
      UpperResident(d) && Aligned(POINTERS, d) && d.page == f
  {
  }
}
