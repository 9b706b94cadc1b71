// Bytes of user memory, reached by translating each address.
module UserCopy {
  import opened Bytes
  import opened Descriptors
  import opened Ownership
  import opened Translation
  import opened Mapping
  import opened Lifetimes

  // Bits 7-0 cut into descriptor fields again.
  function FromLastByte(upper: Nibble, b: Byte): Low {
    var b1 := b % 128;
    var b2 := b1 % 32;
    var b3 := b2 % 16;
    var b4 := b3 % 8;
    Low(upper, b >= 128, b1 / 32, b2 >= 16, b3 >= 8, b4 >= 4, b4 % 4)
  }

  lemma LastByteFrom(upper: Nibble, b: Byte)
    ensures LastByte(FromLastByte(upper, b)) == b
  {
    var b1 := b % 128;
    var b2 := b1 % 32;
    var b3 := b2 % 16;
    var b4 := b3 % 8;
    assert b == (if b >= 128 then 128 else 0) + b1;
    assert b1 == b1 / 32 * 32 + b2;
    assert b2 == (if b2 >= 16 then 16 else 0) + b3;
    assert b3 == (if b3 >= 8 then 8 else 0) + b4;
    assert b4 == (if b4 >= 4 then 4 else 0) + b4 % 4;
  }

  // Byte n of a word, most significant first.
  function ByteOf(w: Word, n: nat): Byte {
    if n == 0 then w.page / 4096
    else if n == 1 then w.page / 16 % 256
    else if n == 2 then w.page % 16 * 16 + w.low.upper
    else LastByte(w.low)
  }

  function WithByte(w: Word, n: nat, b: Byte): Word {
    if n == 0 then w.(page := b * 4096 + w.page % 4096)
    else if n == 1 then w.(page := w.page / 4096 * 4096 + b * 16 + w.page % 16)
    else if n == 2 then Word(w.page / 16 * 16 + b / 16, w.low.(upper := b % 16))
    else w.(low := FromLastByte(w.low.upper, b))
  }

  // The value of a word.
  function ValueOf(w: Word): nat { w.page * 4096 + Offset(w) }

  // A word in memory is big-endian.
  lemma WordIsBytes(w: Word)
    ensures ValueOf(w) == ByteOf(w, 0) * 0x100_0000 + ByteOf(w, 1) * 0x1_0000 + ByteOf(w, 2) * 0x100 + ByteOf(w, 3)
    ensures ValueOf(w) < 0x1_0000_0000
  {
    var p := w.page;
    var q := p / 16;
    assert p == 16 * q + p % 16;
    Div4096(p, p / 4096, p % 4096);
    Div256(q, q / 256, q % 256);
    Div16(p, q, p % 16);
    Div4096(p, q / 256, q % 256 * 16 + p % 16);
  }

  // An address is its page's start and an offset; the byte there is the one of
  // the word at the multiple of 4.
  lemma AddressParts(mem: Memory, f: nat, va: Address, x: nat, n: nat)
    requires OffsetOf(va) == 4 * x + n && n < 4
    ensures PageOf(va) * 4096 + OffsetOf(va) == va
    ensures ByteAt(mem, f, OffsetOf(va)) == ByteOf(Read(mem, f, x), n)
  {
    assert OffsetOf(va) / 4 == x && OffsetOf(va) % 4 == n;
  }

  lemma Div16(x: nat, q: nat, r: nat)
    requires x == 16 * q + r && r < 16
    ensures x / 16 == q && x % 16 == r
  {
  }

  lemma Div256(x: nat, q: nat, r: nat)
    requires x == 256 * q + r && r < 256
    ensures x / 256 == q && x % 256 == r
  {
  }

  lemma Div4096(x: nat, q: nat, r: nat)
    requires x == 4096 * q + r && r < 4096
    ensures x / 4096 == q && x % 4096 == r
  {
  }

  lemma ByteSet0(w: Word, b: Byte)
    ensures ByteOf(WithByte(w, 0, b), 0) == b
    ensures ByteOf(WithByte(w, 0, b), 1) == ByteOf(w, 1)
    ensures ByteOf(WithByte(w, 0, b), 2) == ByteOf(w, 2)
    ensures ByteOf(WithByte(w, 0, b), 3) == ByteOf(w, 3)
  {
    var p, rest := w.page, w.page % 4096;
    var q := b * 4096 + rest;
    Div4096(q, b, rest);
    Div16(p, 256 * (p / 4096) + rest / 16, rest % 16);
    Div16(q, 256 * b + rest / 16, rest % 16);
    Div256(q / 16, b, rest / 16);
    Div256(p / 16, p / 4096, rest / 16);
  }

  lemma ByteSet1(w: Word, b: Byte)
    ensures ByteOf(WithByte(w, 1, b), 0) == ByteOf(w, 0)
    ensures ByteOf(WithByte(w, 1, b), 1) == b
    ensures ByteOf(WithByte(w, 1, b), 2) == ByteOf(w, 2)
    ensures ByteOf(WithByte(w, 1, b), 3) == ByteOf(w, 3)
  {
    var p := w.page;
    var q := p / 4096 * 4096 + b * 16 + p % 16;
    Div4096(q, p / 4096, b * 16 + p % 16);
    Div16(q, 256 * (p / 4096) + b, p % 16);
    Div256(q / 16, p / 4096, b);
  }

  lemma ByteSet2(w: Word, b: Byte)
    ensures ByteOf(WithByte(w, 2, b), 0) == ByteOf(w, 0)
    ensures ByteOf(WithByte(w, 2, b), 1) == ByteOf(w, 1)
    ensures ByteOf(WithByte(w, 2, b), 2) == b
    ensures ByteOf(WithByte(w, 2, b), 3) == ByteOf(w, 3)
  {
    var p := w.page;
    var q := p / 16 * 16 + b / 16;
    Div16(q, p / 16, b / 16);
    Div4096(q, p / 4096, p / 16 % 256 * 16 + b / 16);
  }

  lemma ByteSet3(w: Word, b: Byte)
    ensures ByteOf(WithByte(w, 3, b), 0) == ByteOf(w, 0)
    ensures ByteOf(WithByte(w, 3, b), 1) == ByteOf(w, 1)
    ensures ByteOf(WithByte(w, 3, b), 2) == ByteOf(w, 2)
    ensures ByteOf(WithByte(w, 3, b), 3) == b
  {
    LastByteFrom(w.low.upper, b);
  }

  lemma ByteSet(w: Word, n: nat, b: Byte, m: nat)
    requires n < 4 && m < 4
    ensures ByteOf(WithByte(w, n, b), m) == if m == n then b else ByteOf(w, m)
  {
    match n {
      case 0 => ByteSet0(w, b);
      case 1 => ByteSet1(w, b);
      case 2 => ByteSet2(w, b);
      case _ => ByteSet3(w, b);
    }
  }

  // ---- Addresses ----

  type Address = a: nat | a < 0x1_0000_0000 witness 0

  function Next(va: Address): Address { (va + 1) % 0x1_0000_0000 }

  function Advance(va: Address, n: nat): Address { (va + n) % 0x1_0000_0000 }

  function PageOf(va: Address): PageNumber { va / 4096 }

  function OffsetOf(va: Address): (o: nat)
    ensures o < 4096
  {
    va % 4096
  }

  lemma NextInPage(va: Address)
    ensures OffsetOf(Next(va)) != 0 ==> PageOf(Next(va)) == PageOf(va) && OffsetOf(Next(va)) == OffsetOf(va) + 1
  {
  }

  lemma Modulo(x: nat, q: nat, r: nat)
    requires x == 0x1_0000_0000 * q + r && r < 0x1_0000_0000
    ensures x % 0x1_0000_0000 == r
  {
  }

  lemma AdvanceNext(va: Address, n: nat)
    ensures Next(Advance(va, n)) == Advance(va, n + 1)
    ensures Advance(Next(va), n) == Advance(va, n + 1)
    ensures Advance(va, 0) == va
  {
    var q, r := (va + n) / 0x1_0000_0000, (va + n) % 0x1_0000_0000;
    if r + 1 < 0x1_0000_0000 {
      Modulo(va + n + 1, q, r + 1);
      Modulo(r + 1, 0, r + 1);
    } else {
      Modulo(va + n + 1, q + 1, 0);
    }
    if va + 1 == 0x1_0000_0000 {
      Modulo(n, n / 0x1_0000_0000, n % 0x1_0000_0000);
      Modulo(va + n + 1, n / 0x1_0000_0000 + 1, n % 0x1_0000_0000);
    } else {
      Modulo(va + 1, 0, va + 1);
    }
    Modulo(va, 0, va);
  }

  // The frame that mmu040_get_physical reports for a user page.
  function FrameAt(mem: Memory, r: nat, page: PageNumber): PageNumber {
    match Translate(mem, r, page)
    case Some(d) => d.page
    case None => 0
  }

  function ByteAt(mem: Memory, f: nat, o: nat): Byte {
    ByteOf(Read(mem, f, o / 4), o % 4)
  }

  function PutByteAt(mem: Memory, f: nat, o: nat, b: Byte): Memory {
    Write(mem, f, o / 4, WithByte(Read(mem, f, o / 4), o % 4, b))
  }

  // The byte a user program finds at an address.
  function UserByte(mem: Memory, r: nat, va: Address): Byte {
    ByteAt(mem, FrameAt(mem, r, PageOf(va)), OffsetOf(va))
  }

  function PutUserByte(mem: Memory, r: nat, va: Address, b: Byte): Memory {
    PutByteAt(mem, FrameAt(mem, r, PageOf(va)), OffsetOf(va), b)
  }

  // Storing bytes one by one, translating every address.
  function PutUserBytes(mem: Memory, r: nat, va: Address, bytes: seq<Byte>): Memory
    decreases |bytes|
  {
    if bytes == [] then mem else PutUserBytes(PutUserByte(mem, r, va, bytes[0]), r, Next(va), bytes[1..])
  }

  lemma ByteStored(mem: Memory, f: nat, o: nat, b: Byte, g: nat, u: nat)
    requires f in mem && o < 4096 && u < 4096
    ensures ByteAt(PutByteAt(mem, f, o, b), g, u) == if g == f && u == o then b else ByteAt(mem, g, u)
  {
    ByteSet(Read(mem, f, o / 4), o % 4, b, u % 4);
  }

  // ---- Stores to user pages leave the tables alone ----

  ghost predicate UserRoot(st: State, r: nat) {
    Wf(st) && st.dead == {} && IsRoot(st, r) && r != st.srp
  }

  ghost predicate NotTable(st: State, f: nat) {
    f in st.own ==> st.own[f].Node? && st.own[f].level == PAGE
  }

  lemma FrameAtIsNoTable(st: State, r: nat, page: PageNumber)
    requires UserRoot(st, r)
    ensures NotTable(st, FrameAt(st.mem, r, page))
    ensures Translate(st.mem, r, page).Some? ==> FrameAt(st.mem, r, page) in st.mem
  {
    WalkOwned(st, r, RootIndex(page), PointerIndex(page), PageIndex(page));
    assert 0 in st.own ==> Managed(st, 0);
    if Translate(st.mem, r, page).Some? { assert Managed(st, FrameAt(st.mem, r, page)); }
  }

  lemma FrameAtIsInjective(st: State, r: nat, v: PageNumber, w: PageNumber)
    requires UserRoot(st, r) && Translate(st.mem, r, v).Some? && Translate(st.mem, r, w).Some?
    requires FrameAt(st.mem, r, v) == FrameAt(st.mem, r, w)
    ensures v == w
  {
    OneOwner(st, r, RootIndex(v), PointerIndex(v), PageIndex(v), r, RootIndex(w), PointerIndex(w), PageIndex(w));
    IndicesDeterminePage(v, w);
  }

  ghost function Stored(st: State, f: nat, o: nat, b: Byte): State {
    State(PutByteAt(st.mem, f, o, b), st.own, st.free, st.dead, st.srp)
  }

  lemma StoreKeepsRoot(st: State, r: nat, f: nat, o: nat, b: Byte)
    requires UserRoot(st, r) && NotTable(st, f)
    ensures UserRoot(Stored(st, f, o, b), r)
  {
    var s := Stored(st, f, o, b);
    forall g | g in s.own ensures Managed(s, g) { assert Managed(st, g); }
    forall g | g in s.own ensures Up(s, g) { assert Up(st, g); }
    forall p: nat, y: nat ensures Down(s, p, y) { assert Down(st, p, y); }
    forall n | 0 <= n < |s.free| ensures Linked(s, n) { assert Linked(st, n); }
  }

  lemma StoreKeepsTranslation(st: State, r: nat, f: nat, o: nat, b: Byte, page: PageNumber)
    requires UserRoot(st, r) && NotTable(st, f)
    ensures Translate(Stored(st, f, o, b).mem, r, page) == Translate(st.mem, r, page)
  {
    WalkOwned(st, r, RootIndex(page), PointerIndex(page), PageIndex(page));
  }

  // ---- What a copy does ----

  // The addresses of a range are mapped.
  ghost predicate RangeMapped(mem: Memory, r: nat, va: Address, size: nat) {
    forall n: nat {:trigger Advance(va, n)} :: n < size ==> Translate(mem, r, PageOf(Advance(va, n))).Some?
  }

  lemma FirstStore(st: State, r: nat, va: Address, size: nat, b: Byte)
    requires UserRoot(st, r) && size > 0 && RangeMapped(st.mem, r, va, size)
    ensures Translate(st.mem, r, PageOf(va)).Some?
    ensures var s := Stored(st, FrameAt(st.mem, r, PageOf(va)), OffsetOf(va), b);
      UserRoot(s, r) && RangeMapped(s.mem, r, Next(va), size - 1)
  {
    var f, o := FrameAt(st.mem, r, PageOf(va)), OffsetOf(va);
    AdvanceNext(va, 0);
    assert Translate(st.mem, r, PageOf(Advance(va, 0))).Some?;
    FrameAtIsNoTable(st, r, PageOf(va));
    StoreKeepsRoot(st, r, f, o, b);
    forall n: nat | n < size - 1 ensures Translate(Stored(st, f, o, b).mem, r, PageOf(Advance(Next(va), n))).Some? {
      AdvanceNext(va, n);
      StoreKeepsTranslation(st, r, f, o, b, PageOf(Advance(va, n + 1)));
    }
  }

  // Bytes up to the end of the range are stored where they belong and every
  // other user byte is unchanged; reading the range back gives the bytes.
  lemma {:induction false} PutThenGet(st: State, r: nat, va: Address, bytes: seq<Byte>, a: Address)
    requires UserRoot(st, r) && |bytes| <= 0x1_0000_0000
    requires RangeMapped(st.mem, r, va, |bytes|) && Translate(st.mem, r, PageOf(a)).Some?
    ensures var d := (a - va) % 0x1_0000_0000;
      UserByte(PutUserBytes(st.mem, r, va, bytes), r, a) == if d < |bytes| then bytes[d] else UserByte(st.mem, r, a)
    decreases |bytes|
  {
    hide RangeMapped, Translate, UserRoot, ByteAt, PutByteAt, Next;
    if bytes != [] {
      FirstStore(st, r, va, |bytes|, bytes[0]);
      FirstByte(st, r, va, bytes[0], a);
      PutThenGet(Stored(st, FrameAt(st.mem, r, PageOf(va)), OffsetOf(va), bytes[0]), r, Next(va), bytes[1..], a);
      NextDistance(va, a);
    }
  }

  lemma FirstByte(st: State, r: nat, va: Address, b: Byte, a: Address)
    requires UserRoot(st, r) && Translate(st.mem, r, PageOf(va)).Some? && Translate(st.mem, r, PageOf(a)).Some?
    ensures UserByte(PutUserByte(st.mem, r, va, b), r, a) == if a == va then b else UserByte(st.mem, r, a)
    ensures Translate(PutUserByte(st.mem, r, va, b), r, PageOf(a)).Some?
  {
    var f, g := FrameAt(st.mem, r, PageOf(va)), FrameAt(st.mem, r, PageOf(a));
    FrameAtIsNoTable(st, r, PageOf(va));
    StoreKeepsTranslation(st, r, f, OffsetOf(va), b, PageOf(a));
    ByteStored(st.mem, f, OffsetOf(va), b, g, OffsetOf(a));
    if g == f { FrameAtIsInjective(st, r, PageOf(va), PageOf(a)); }
  }

  lemma NextDistance(va: Address, a: Address)
    ensures (a - va) % 0x1_0000_0000 == 0 <==> a == va
    ensures a != va ==> (a - Next(va)) % 0x1_0000_0000 == (a - va) % 0x1_0000_0000 - 1
    ensures a == va ==> (a - Next(va)) % 0x1_0000_0000 == 0xFFFF_FFFF
  {
  }

  // Copying bytes to a mapped range and reading the range back returns them.
  lemma CopyRoundTrip(st: State, r: nat, va: Address, bytes: seq<Byte>, n: nat)
    requires UserRoot(st, r) && n < |bytes| <= 0x1_0000_0000
    requires RangeMapped(st.mem, r, va, |bytes|)
    ensures UserByte(PutUserBytes(st.mem, r, va, bytes), r, Advance(va, n)) == bytes[n]
  {
    PutThenGet(st, r, va, bytes, Advance(va, n));
    AdvanceDistance(va, n);
  }

  lemma AdvanceDistance(va: Address, n: nat)
    requires n < 0x1_0000_0000
    ensures (Advance(va, n) - va) % 0x1_0000_0000 == n
  {
  }
}
