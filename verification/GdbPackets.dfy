// The packet layer of the debugger stub: checksummed frames over a byte stream,
// answered with '+' or '-'.
module GdbPackets {
  import opened Bytes

  const BUFMAX := 400

  const START: Byte := 0x24
  const END: Byte := 0x23
  const PLUS: Byte := 0x2B
  const MINUS: Byte := 0x2D
  const COLON: Byte := 0x3A

  // ---- Hex digits ----

  // hex: -1 for what is not a digit.
  function Hex(ch: Byte): int {
    if 0x61 <= ch <= 0x66 then ch - 0x61 + 10
    else if 0x30 <= ch <= 0x39 then ch - 0x30
    else if 0x41 <= ch <= 0x46 then ch - 0x41 + 10
    else -1
  }

  // hexchars[n].
  function Digit(n: nat): Byte
    requires n < 16
  {
    if n < 10 then 0x30 + n else 0x61 + n - 10
  }

  lemma HexOfDigit(n: nat)
    requires n < 16
    ensures Hex(Digit(n)) == n
  {
  }

  // Character d stands for n, in either case.
  predicate Writes(d: Byte, n: nat) {
    n < 16 && (d as char == "0123456789abcdef"[n] || d as char == "0123456789ABCDEF"[n])
  }

  // hex inverts both ways of writing a digit.
  lemma HexIs(d: Byte, n: nat)
    requires n < 16
    ensures Hex(d) == n <==> Writes(d, n)
  {
    assert "0123456789abcdef"[n] as int == if n < 10 then 0x30 + n else 0x61 + n - 10;
    assert "0123456789ABCDEF"[n] as int == if n < 10 then 0x30 + n else 0x41 + n - 10;
  }

  // It refuses everything else.
  lemma HexRefuses(d: Byte)
    ensures Hex(d) == -1 <==> d as char !in "0123456789abcdefABCDEF"
  {
    if Hex(d) >= 0 {
      var n := if d >= 0x61 then d - 0x61 + 10 else if d >= 0x41 then d - 0x41 + 16 else d - 0x30;
      assert "0123456789abcdefABCDEF"[n] == d as char;
    }
  }

  // What is sent is in lower case.
  lemma DigitIs(n: nat)
    requires n < 16
    ensures Digit(n) as char == "0123456789abcdef"[n]
  {
  }

  lemma PairOfWritten(a: Byte, b: Byte, v: Byte)
    requires Writes(a, v / 16) && Writes(b, v % 16)
    ensures Pair(a, b) == v
  {
    hide Writes, Hex;
    HexIs(a, v / 16);
    HexIs(b, v % 16);
  }

  // An 8-bit value from two characters, digits or not.
  function Pair(hi: Byte, lo: Byte): Byte { (Hex(hi) * 16 + Hex(lo)) % 256 }

  lemma PairOfDigits(v: Byte)
    ensures Pair(Digit(v / 16), Digit(v % 16)) == v
  {
    HexOfDigit(v / 16);
    HexOfDigit(v % 16);
  }

  // ---- Frames ----

  function Checksum(p: seq<Byte>): Byte {
    if |p| == 0 then 0 else (Checksum(p[..|p| - 1]) + p[|p| - 1]) % 256
  }

  // The sum of the bytes, modulo 256.
  lemma {:induction false} ChecksumAdds(p: seq<Byte>, q: seq<Byte>)
    ensures Checksum(p + q) == (Checksum(p) + Checksum(q)) % 256
    decreases |q|
  {
    hide Checksum;
    if |q| == 0 {
      assert p + q == p && q == [];
      ChecksumOfNone();
    } else {
      var last := |q| - 1;
      ChecksumAdds(p, q[..last]);
      assert Checksum(p + q) == (Checksum(p + q[..last]) + q[last]) % 256 by {
        ChecksumStep(p + q);
        assert (p + q)[..|p| + last] == p + q[..last];
      }
      ChecksumStep(q);
      SumOfRemainders(Checksum(p), Checksum(q[..last]), q[last]);
    }
  }

  lemma ChecksumOfNone()
    ensures Checksum([]) == 0
  {
  }

  lemma ChecksumOfOne(x: Byte)
    ensures Checksum([x]) == x
  {
    assert Checksum([x][..0]) == 0;
  }

  lemma SumOfRemainders(a: nat, b: nat, c: nat)
    ensures ((a + b) % 256 + c) % 256 == (a + (b + c) % 256) % 256
  {
    var t, q := (a + b + c) % 256, (a + b + c) / 256;
    Remainder((a + b) % 256 + c, q - (a + b) / 256, t);
    Remainder(a + (b + c) % 256, q - (b + c) / 256, t);
  }

  lemma Remainder(x: int, q: int, r: int)
    requires x == 256 * q + r && 0 <= r < 256
    ensures x % 256 == r
  {
  }

  function Frame(p: seq<Byte>): seq<Byte> {
    [START] + p + [END, Digit(Checksum(p) / 16), Digit(Checksum(p) % 16)]
  }

  // ---- The receiver ----

  // Packet: the text starts at `start` of the buffer; `rest` is not read yet.
  datatype Outcome = Waiting(sent: seq<Byte>) | Packet(start: nat, buf: seq<Byte>, rest: seq<Byte>, sent: seq<Byte>)

  // Waiting for a frame to start.
  function Wait(buf: seq<Byte>, s: seq<Byte>, sent: seq<Byte>): Outcome
    requires |buf| == BUFMAX
    decreases |s|, 0
  {
    if |s| == 0 then Waiting(sent)
    else if s[0] == START then Collect(buf, s[1..], 0, 0, sent)
    else Wait(buf, s[1..], sent)
  }

  // Inside a frame, after `count` characters with checksum `sum`.
  function Collect(buf: seq<Byte>, s: seq<Byte>, count: nat, sum: Byte, sent: seq<Byte>): Outcome
    requires |buf| == BUFMAX && count < BUFMAX
    decreases |s|, 1
  {
    if count == BUFMAX - 1 then Wait(buf[count := 0], s, sent)
    else if |s| == 0 then Waiting(sent)
    else if s[0] == START then Collect(buf, s[1..], 0, 0, sent)
    else if s[0] == END then Verify(buf[count := 0], s[1..], sum, sent)
    else Collect(buf[count := s[0]], s[1..], count + 1, (sum + s[0]) % 256, sent)
  }

  // At the checksum. A sequence identifier is echoed after the '+'.
  function Verify(buf: seq<Byte>, s: seq<Byte>, sum: Byte, sent: seq<Byte>): Outcome
    requires |buf| == BUFMAX
    decreases |s|, 1
  {
    if |s| < 2 then Waiting(sent)
    else if sum != Pair(s[0], s[1]) then Wait(buf, s[2..], sent + [MINUS])
    else if buf[2] == COLON then Packet(3, buf, s[2..], sent + [PLUS, buf[0], buf[1]])
    else Packet(0, buf, s[2..], sent + [PLUS])
  }

  // ---- What frames do to the receiver ----

  ghost predicate Clean(p: seq<Byte>) { START !in p && END !in p && |p| < BUFMAX - 1 }

  // The buffer after text p and its terminator.
  function Filled(buf: seq<Byte>, p: seq<Byte>): (b: seq<Byte>)
    requires |buf| == BUFMAX && |p| < BUFMAX
    ensures |b| == BUFMAX && b[..|p|] == p && b[|p|] == 0
    ensures forall k: nat {:trigger b[k]} :: |p| < k < BUFMAX ==> b[k] == buf[k]
  {
    p + [0] + buf[|p| + 1..]
  }

  lemma NoiseIsSkipped(buf: seq<Byte>, noise: seq<Byte>, s: seq<Byte>, sent: seq<Byte>)
    requires |buf| == BUFMAX && START !in noise
    ensures Wait(buf, noise + s, sent) == Wait(buf, s, sent)
    decreases |noise|
  {
    if |noise| == 0 {
      assert noise + s == s;
    } else {
      assert (noise + s)[1..] == noise[1..] + s && noise[0] in noise;
      NoiseIsSkipped(buf, noise[1..], s, sent);
    }
  }

  // The buffer with text p stored from position n on.
  function Over(buf: seq<Byte>, n: nat, p: seq<Byte>): (b: seq<Byte>)
    requires n + |p| <= |buf|
    ensures |b| == |buf|
  {
    buf[..n] + p + buf[n + |p|..]
  }

  lemma OverStep(buf: seq<Byte>, n: nat, p: seq<Byte>)
    requires n + |p| <= |buf| && |p| > 0
    ensures Over(buf[n := p[0]], n + 1, p[1..]) == Over(buf, n, p)
  {
  }

  // The characters of a text are collected after n others.
  lemma {:induction false} TextIsCollected(buf: seq<Byte>, done: seq<Byte>, p: seq<Byte>, s: seq<Byte>, sent: seq<Byte>)
    requires |buf| == BUFMAX && START !in p && END !in p && |done| + |p| < BUFMAX
    ensures Collect(buf, p + s, |done|, Checksum(done), sent) ==
      Collect(Over(buf, |done|, p), s, |done| + |p|, Checksum(done + p), sent)
    decreases |p|
  {
    hide Wait, Verify;
    if |p| == 0 {
      assert p + s == s && done + p == done && Over(buf, |done|, p) == buf;
    } else {
      var next, more := buf[|done| := p[0]], done + [p[0]];
      assert (p + s)[1..] == p[1..] + s && p[0] in p && more[..|done|] == done;
      TextIsCollected(next, more, p[1..], s, sent);
      OverStep(buf, |done|, p);
      assert more + p[1..] == done + p;
    }
  }

  lemma FrameArrives(buf: seq<Byte>, p: seq<Byte>, s: seq<Byte>, sent: seq<Byte>)
    requires |buf| == BUFMAX && Clean(p)
    ensures Collect(buf, p + [END] + s, 0, 0, sent) == Verify(Filled(buf, p), s, Checksum(p), sent)
  {
    hide Wait, Verify;
    assert p + [END] + s == p + ([END] + s);
    TextIsCollected(buf, [], p, [END] + s, sent);
    assert [] + p == p;
    assert Over(buf, 0, p)[|p| := 0] == Filled(buf, p);
    assert ([END] + s)[1..] == s;
  }

  // A frame that is accepted: its sequence identifier, if it looks like one, is cut off.
  function Received(buf: seq<Byte>, rest: seq<Byte>, sent: seq<Byte>): Outcome
    requires |buf| == BUFMAX
  {
    if buf[2] == COLON then Packet(3, buf, rest, sent + [PLUS, buf[0], buf[1]]) else Packet(0, buf, rest, sent + [PLUS])
  }

  // The string a packet's user sees.
  function Text(buf: seq<Byte>, start: nat): seq<Byte>
    requires start <= |buf|
    decreases |buf| - start
  {
    if start == |buf| || buf[start] == 0 then [] else [buf[start]] + Text(buf, start + 1)
  }

  lemma {:induction false} TextFilled(buf: seq<Byte>, p: seq<Byte>, k: nat)
    requires |buf| == BUFMAX && |p| < BUFMAX && 0 !in p && k <= |p|
    ensures Text(Filled(buf, p), k) == p[k..]
    decreases |p| - k
  {
    if k < |p| {
      assert Filled(buf, p)[k] == p[k] && p[k] in p;
      TextFilled(buf, p, k + 1);
    }
  }

  // A frame sent after noise is received and answered '+'.
  lemma FrameIsReceived(buf: seq<Byte>, noise: seq<Byte>, p: seq<Byte>, s: seq<Byte>, sent: seq<Byte>)
    requires |buf| == BUFMAX && START !in noise && Clean(p)
    ensures Wait(buf, noise + Frame(p) + s, sent) == Received(Filled(buf, p), s, sent)
  {
    var digits: seq<Byte> := [Digit(Checksum(p) / 16), Digit(Checksum(p) % 16)];
    assert noise + Frame(p) + s == noise + (Frame(p) + s);
    NoiseIsSkipped(buf, noise, Frame(p) + s, sent);
    assert (Frame(p) + s)[1..] == p + [END] + (digits + s);
    FrameArrives(buf, p, digits + s, sent);
    PairOfDigits(Checksum(p));
    assert (digits + s)[2..] == s;
  }

  // The text that was sent is what the user sees, exactly when the third byte of
  // the buffer is not a colon afterwards; below two bytes that one is stale.
  lemma RoundTrip(buf: seq<Byte>, noise: seq<Byte>, p: seq<Byte>, s: seq<Byte>, sent: seq<Byte>)
    requires |buf| == BUFMAX && START !in noise && Clean(p) && 0 !in p
    ensures var o := Wait(buf, noise + Frame(p) + s, sent);
      && o.Packet? && o.rest == s && |o.buf| == BUFMAX && (o.start == 0 || o.start == 3)
      && (o.start == 0 <==> o.buf[2] != COLON)
      && (o.start == 0 ==> Text(o.buf, o.start) == p && o.sent == sent + [PLUS])
      && (o.start == 3 ==> o.sent == sent + [PLUS, o.buf[0], o.buf[1]])
      && (o.start == 3 && |p| >= 3 ==> o.buf[..2] == p[..2] && Text(o.buf, o.start) == p[3..])
      && o.buf[2] == if |p| > 2 then p[2] else if |p| == 2 then 0 else buf[2]
  {
    FrameIsReceived(buf, noise, p, s, sent);
    TextFilled(buf, p, 0);
    if |p| >= 3 {
      TextFilled(buf, p, 3);
      assert Filled(buf, p)[..2] == Filled(buf, p)[..|p|][..2];
    }
    assert |p| > 2 ==> Filled(buf, p)[..|p|][2] == p[2];
  }

  // ---- Resynchronisation ----

  // Frames cut off before their '#', one after the other.
  function CutFrames(cs: seq<seq<Byte>>): seq<Byte> {
    if |cs| == 0 then [] else [START] + cs[0] + CutFrames(cs[1..])
  }

  lemma CutIsDropped(buf: seq<Byte>, c: seq<Byte>, s: seq<Byte>, sent: seq<Byte>) returns (b: seq<Byte>)
    requires |buf| == BUFMAX && Clean(c) && |s| > 0 && s[0] == START
    ensures |b| == BUFMAX && Wait(buf, [START] + c + s, sent) == Wait(b, s, sent)
  {
    assert ([START] + c + s)[1..] == c + s;
    TextIsCollected(buf, [], c, s, sent);
    b := Over(buf, 0, c);
    assert [] + c == c;
  }

  lemma FirstCutFrame(cs: seq<seq<Byte>>, p: seq<Byte>, s: seq<Byte>)
    requires |cs| > 0
    ensures CutFrames(cs) + Frame(p) + s == [START] + cs[0] + (CutFrames(cs[1..]) + Frame(p) + s)
  {
    hide Frame;
    Regroup([START] + cs[0], CutFrames(cs[1..]), Frame(p), s);
  }

  lemma Regroup(a: seq<Byte>, b: seq<Byte>, c: seq<Byte>, d: seq<Byte>)
    ensures a + b + c + d == a + (b + c + d)
  {
    assert a + b + c == a + (b + c);
    assert a + (b + c) + d == a + (b + c + d);
  }

  lemma {:induction false} CutFramesAreDropped(buf: seq<Byte>, cs: seq<seq<Byte>>, p: seq<Byte>,
      s: seq<Byte>, sent: seq<Byte>)
    returns (b: seq<Byte>)
    requires |buf| == BUFMAX && Clean(p)
    requires forall k: nat {:trigger cs[k]} :: k < |cs| ==> Clean(cs[k])
    ensures |b| == BUFMAX && Wait(buf, CutFrames(cs) + Frame(p) + s, sent) == Received(Filled(b, p), s, sent)
    decreases |cs|
  {
    hide Wait, Received, Filled, Frame, Clean;
    if |cs| == 0 {
      assert CutFrames(cs) + Frame(p) + s == [] + Frame(p) + s;
      FrameIsReceived(buf, [], p, s, sent);
      b := buf;
    } else {
      FirstCutFrame(cs, p, s);
      CutStarts(cs[1..], p, s);
      var b1 := CutIsDropped(buf, cs[0], CutFrames(cs[1..]) + Frame(p) + s, sent);
      b := CutFramesAreDropped(b1, cs[1..], p, s, sent);
    }
  }

  // However many cut frames come before it, a whole frame is received.
  lemma Resynchronises(buf: seq<Byte>, noise: seq<Byte>, cs: seq<seq<Byte>>, p: seq<Byte>,
      s: seq<Byte>, sent: seq<Byte>)
    returns (b: seq<Byte>)
    requires |buf| == BUFMAX && START !in noise && Clean(p)
    requires forall k: nat {:trigger cs[k]} :: k < |cs| ==> Clean(cs[k])
    ensures |b| == BUFMAX && Wait(buf, noise + CutFrames(cs) + Frame(p) + s, sent) == Received(Filled(b, p), s, sent)
  {
    Regroup(noise, CutFrames(cs), Frame(p), s);
    NoiseIsSkipped(buf, noise, CutFrames(cs) + Frame(p) + s, sent);
    b := CutFramesAreDropped(buf, cs, p, s, sent);
  }

  lemma CutStarts(cs: seq<seq<Byte>>, p: seq<Byte>, s: seq<Byte>)
    ensures |CutFrames(cs) + Frame(p) + s| > 0 && (CutFrames(cs) + Frame(p) + s)[0] == START
  {
  }

  // A frame too long for the buffer is dropped without an answer.
  lemma OverlongIsDropped(buf: seq<Byte>, p: seq<Byte>, a: Byte, b: Byte, s: seq<Byte>, sent: seq<Byte>)
    returns (after: seq<Byte>)
    requires |buf| == BUFMAX && START !in p && END !in p && |p| >= BUFMAX - 1 && a != START && b != START
    ensures |after| == BUFMAX && Wait(buf, [START] + p + [END, a, b] + s, sent) == Wait(after, s, sent)
  {
    var head, tail := p[..BUFMAX - 1], p[BUFMAX - 1..] + [END, a, b];
    assert ([START] + p + [END, a, b] + s)[1..] == head + (tail + s);
    TextIsCollected(buf, [], head, tail + s, sent);
    after := Over(buf, 0, head)[BUFMAX - 1 := 0];
    NoiseIsSkipped(after, tail, s, sent);
  }

  // ---- Corruption ----

  lemma {:induction false} ChecksumChanges(p: seq<Byte>, k: nat, x: Byte)
    requires k < |p| && p[k] != x
    ensures (Checksum(p[k := x]) - Checksum(p) - x + p[k]) % 256 == 0 && Checksum(p[k := x]) != Checksum(p)
    decreases |p|
  {
    hide Checksum;
    var q, last := p[k := x], |p| - 1;
    ChecksumStep(p);
    ChecksumStep(q);
    if k == last {
      assert q[..last] == p[..last];
      Remainders(Checksum(p[..last]), x, p[k]);
    } else {
      assert q[..last] == p[..last][k := x];
      ChecksumChanges(p[..last], k, x);
      Shift(Checksum(q[..last]), Checksum(p[..last]), p[last], x, p[k]);
    }
    NotSame(Checksum(q), Checksum(p), x, p[k]);
  }

  lemma ChecksumStep(p: seq<Byte>)
    requires |p| > 0
    ensures Checksum(p) == (Checksum(p[..|p| - 1]) + p[|p| - 1]) % 256
  {
  }

  lemma Remainders(c: int, x: int, y: int)
    ensures ((c + x) % 256 - (c + y) % 256 - x + y) % 256 == 0
  {
    var m, n := (c + x) / 256, (c + y) / 256;
    assert (c + x) % 256 - (c + y) % 256 - x + y == 256 * (n - m);
  }

  lemma Shift(a: int, b: int, c: int, x: int, y: int)
    requires (a - b - x + y) % 256 == 0
    ensures ((a + c) % 256 - (b + c) % 256 - x + y) % 256 == 0
  {
    var m, n := (a + c) / 256, (b + c) / 256;
    assert (a + c) % 256 - (b + c) % 256 - x + y == (a - b - x + y) + 256 * (n - m);
  }

  lemma NotSame(a: Byte, b: Byte, x: Byte, y: Byte)
    requires (a - b - x + y) % 256 == 0 && x != y
    ensures a != b
  {
    var d := y - x;
    assert -256 < d < 256 && d != 0 && a - b - x + y == a - b + d;
  }

  // A frame with one byte of its text changed.
  function Garbled(p: seq<Byte>, k: nat, x: Byte): seq<Byte>
    requires k < |p|
  {
    Frame(p)[k + 1 := x]
  }

  // It is answered '-', and the receiver waits for the next frame.
  lemma GarbledIsRefused(buf: seq<Byte>, p: seq<Byte>, k: nat, x: Byte, s: seq<Byte>, sent: seq<Byte>)
    requires |buf| == BUFMAX && Clean(p) && k < |p| && x != p[k] && x != START && x != END
    ensures Wait(buf, Garbled(p, k, x) + s, sent) == Wait(Filled(buf, p[k := x]), s, sent + [MINUS])
  {
    var q: seq<Byte> := p[k := x];
    var digits: seq<Byte> := [Digit(Checksum(p) / 16), Digit(Checksum(p) % 16)];
    assert (Garbled(p, k, x) + s)[1..] == q + [END] + (digits + s);
    FrameArrives(buf, q, digits + s, sent);
    ChecksumChanges(p, k, x);
    PairOfDigits(Checksum(p));
    assert (digits + s)[2..] == s;
  }

  // A frame with any two characters as its checksum is accepted if and only if
  // they stand for the checksum of its text, and otherwise answered '-'.
  lemma ChecksumDecides(buf: seq<Byte>, p: seq<Byte>, a: Byte, b: Byte, s: seq<Byte>, sent: seq<Byte>)
    requires |buf| == BUFMAX && Clean(p)
    ensures Wait(buf, [START] + p + [END, a, b] + s, sent) ==
      if Pair(a, b) == Checksum(p) then Received(Filled(buf, p), s, sent) else Wait(Filled(buf, p), s, sent + [MINUS])
  {
    var digits: seq<Byte> := [a, b];
    assert ([START] + p + [END, a, b] + s)[1..] == p + [END] + (digits + s);
    FrameArrives(buf, p, digits + s, sent);
    assert (digits + s)[2..] == s;
  }

  // The digits of the checksum may be written in either case.
  lemma EitherCaseIsReceived(buf: seq<Byte>, p: seq<Byte>, a: Byte, b: Byte, s: seq<Byte>, sent: seq<Byte>)
    requires |buf| == BUFMAX && Clean(p) && Writes(a, Checksum(p) / 16) && Writes(b, Checksum(p) % 16)
    ensures Wait(buf, [START] + p + [END, a, b] + s, sent) == Received(Filled(buf, p), s, sent)
  {
    hide *;
    PairOfWritten(a, b, Checksum(p));
    ChecksumDecides(buf, p, a, b, s, sent);
  }

  // Damage to the first checksum character passes if and only if it is the same
  // digit in the other case, or no digit where an f should stand.
  lemma FirstDigitPasses(p: seq<Byte>, a: Byte)
    ensures Pair(a, Digit(Checksum(p) % 16)) == Checksum(p) <==>
      Hex(a) == Checksum(p) / 16 || (Hex(a) == -1 && Checksum(p) / 16 == 15)
  {
    HexOfDigit(Checksum(p) % 16);
    PairParts(Hex(a), Checksum(p) % 16);
  }

  // Damage to the second one passes only if it is the same digit.
  lemma SecondDigitPasses(p: seq<Byte>, b: Byte)
    ensures Pair(Digit(Checksum(p) / 16), b) == Checksum(p) <==> Hex(b) == Checksum(p) % 16
  {
    HexOfDigit(Checksum(p) / 16);
    PairParts(Checksum(p) / 16, Hex(b));
  }

  lemma PairParts(hi: int, lo: int)
    requires -1 <= hi < 16 && -1 <= lo < 16
    ensures (hi * 16 + lo) % 256 ==
      if hi * 16 + lo < 0 then hi * 16 + lo + 256 else hi * 16 + lo
  {
  }

  // A frame whose first checksum digit should be f is accepted with a g there.
  lemma BadDigitPasses(buf: seq<Byte>, p: seq<Byte>, s: seq<Byte>, sent: seq<Byte>)
    requires |buf| == BUFMAX && Clean(p) && Checksum(p) / 16 == 15
    ensures Frame(p) != [START] + p + [END, 0x67, Digit(Checksum(p) % 16)]
    ensures Wait(buf, [START] + p + [END, 0x67, Digit(Checksum(p) % 16)] + s, sent) == Received(Filled(buf, p), s, sent)
  {
    FirstDigitPasses(p, 0x67);
    ChecksumDecides(buf, p, 0x67, Digit(Checksum(p) % 16), s, sent);
    assert Frame(p)[|p| + 2] == 0x66;
  }

  // ---- Sending until acknowledged ----

  // How many frames are sent for these replies, if one is a '+'.
  function Attempts(replies: seq<Byte>): nat {
    if |replies| == 0 then 1 else if replies[0] == PLUS then 1 else 1 + Attempts(replies[1..])
  }

  // The first '+' ends it, whatever came before.
  lemma {:induction false} FirstPlusEnds(others: seq<Byte>, more: seq<Byte>)
    requires PLUS !in others
    ensures Attempts(others + [PLUS] + more) == |others| + 1
    ensures Attempts(others) == |others| + 1
    decreases |others|
  {
    if others == [] {
      assert others + [PLUS] + more == [PLUS] + more;
    } else {
      assert (others + [PLUS] + more)[1..] == others[1..] + [PLUS] + more && others[0] in others;
      FirstPlusEnds(others[1..], more);
    }
  }

  function Repeated(p: seq<Byte>, n: nat): seq<Byte> {
    if n == 0 then [] else Repeated(p, n - 1) + Frame(p)
  }

  // One frame after the other.
  lemma {:induction false} RepeatedAdds(p: seq<Byte>, m: nat, n: nat)
    ensures Repeated(p, m + n) == Repeated(p, m) + Repeated(p, n) && Repeated(p, 1) == Frame(p)
  {
    hide Frame;
    assert Repeated(p, 0) + Frame(p) == Frame(p);
    if n > 0 {
      RepeatedAdds(p, m, n - 1);
      assert Repeated(p, m) + Repeated(p, n - 1) + Frame(p) == Repeated(p, m) + (Repeated(p, n - 1) + Frame(p));
    } else {
      assert Repeated(p, m) + [] == Repeated(p, m);
    }
  }

  // A change of one byte on the line.
  datatype Error = Error(at: nat, byte: Byte)

  ghost predicate Spoils(e: Error, p: seq<Byte>) {
    e.at < |p| && e.byte != p[e.at] && e.byte != START && e.byte != END
  }

  ghost predicate AllSpoil(es: seq<Error>, p: seq<Byte>) {
    forall k: nat {:trigger es[k]} :: k < |es| ==> Spoils(es[k], p)
  }

  // The line carries a spoilt copy for each error, then an intact one.
  ghost function Line(p: seq<Byte>, es: seq<Error>): seq<Byte>
    requires AllSpoil(es, p)
  {
    if |es| == 0 then Frame(p) else Garbled(p, es[0].at, es[0].byte) + Line(p, es[1..])
  }

  function Minuses(n: nat): (m: seq<Byte>)
    ensures |m| == n
  {
    if n == 0 then [] else [MINUS] + Minuses(n - 1)
  }

  // The receiver answers '-' to each spoilt copy and takes the intact one.
  lemma {:induction false} LineIsReceived(buf: seq<Byte>, p: seq<Byte>, es: seq<Error>, s: seq<Byte>, sent: seq<Byte>)
    returns (b: seq<Byte>)
    requires |buf| == BUFMAX && Clean(p) && AllSpoil(es, p)
    ensures |b| == BUFMAX && Wait(buf, Line(p, es) + s, sent) == Received(Filled(b, p), s, sent + Minuses(|es|))
    decreases |es|
  {
    hide Wait, Received, Filled, Frame, Garbled;
    var none: seq<Byte> := [];
    if |es| == 0 {
      assert Line(p, es) + s == none + Frame(p) + s && sent + Minuses(0) == sent;
      FrameIsReceived(buf, none, p, s, sent);
      b := buf;
    } else {
      assert Line(p, es) + s == Garbled(p, es[0].at, es[0].byte) + (Line(p, es[1..]) + s);
      GarbledIsRefused(buf, p, es[0].at, es[0].byte, Line(p, es[1..]) + s, sent);
      b := LineIsReceived(Filled(buf, p[es[0].at := es[0].byte]), p, es[1..], s, sent + [MINUS]);
      assert sent + [MINUS] + Minuses(|es| - 1) == sent + Minuses(|es|);
    }
  }

  // With those answers the sender stops after one frame more than there were errors.
  lemma {:induction false} SenderStops(n: nat, more: seq<Byte>)
    ensures Attempts(Minuses(n) + [PLUS] + more) == n + 1
  {
    var none: seq<Byte> := [];
    if n == 0 {
      assert Minuses(0) + [PLUS] + more == [PLUS] + more;
    } else {
      assert (Minuses(n) + [PLUS] + more)[1..] == Minuses(n - 1) + [PLUS] + more;
      SenderStops(n - 1, more);
    }
  }

  // ---- Hex dumps ----

  function Dump(mem: seq<Byte>): (h: seq<Byte>)
    ensures |h| == 2 * |mem|
  {
    if |mem| == 0 then [] else Dump(mem[..|mem| - 1]) + [Digit(mem[|mem| - 1] / 16), Digit(mem[|mem| - 1] % 16)]
  }

  // The bytes that n pairs of characters stand for.
  function Load(h: seq<Byte>, n: nat): (mem: seq<Byte>)
    requires 2 * n <= |h|
    ensures |mem| == n
  {
    if n == 0 then [] else Load(h, n - 1) + [Pair(h[2 * n - 2], h[2 * n - 1])]
  }

  lemma {:induction false} LoadLocal(h: seq<Byte>, more: seq<Byte>, n: nat)
    requires 2 * n <= |h|
    ensures Load(h + more, n) == Load(h, n)
  {
    if n > 0 { LoadLocal(h, more, n - 1); }
  }

  // What was dumped is loaded again.
  lemma {:induction false} DumpThenLoad(mem: seq<Byte>, more: seq<Byte>)
    ensures Load(Dump(mem) + more, |mem|) == mem
    decreases |mem|
  {
    if |mem| > 0 {
      var init, last := mem[..|mem| - 1], mem[|mem| - 1];
      var digits: seq<Byte> := [Digit(last / 16), Digit(last % 16)];
      assert Dump(mem) + more == Dump(init) + (digits + more);
      DumpThenLoad(init, digits + more);
      PairOfDigits(last);
      assert (Dump(mem) + more)[2 * |mem| - 2] == digits[0] && (Dump(mem) + more)[2 * |mem| - 1] == digits[1];
      assert init + [last] == mem;
    }
  }

  // Bytes written in digits of either case are loaded.
  lemma {:induction false} EitherCaseIsLoaded(mem: seq<Byte>, h: seq<Byte>, n: nat)
    requires n <= |mem| && 2 * n <= |h|
    requires forall k: nat {:trigger mem[k]} :: k < n ==>
      Writes(h[2 * k], mem[k] / 16) && Writes(h[2 * k + 1], mem[k] % 16)
    ensures Load(h, n) == mem[..n]
  {
    hide Writes, Pair;
    if n > 0 {
      EitherCaseIsLoaded(mem, h, n - 1);
      assert Writes(h[2 * (n - 1)], mem[n - 1] / 16);
      PairOfWritten(h[2 * n - 2], h[2 * n - 1], mem[n - 1]);
      assert mem[..n] == mem[..n - 1] + [mem[n - 1]];
    }
  }

  // ---- The stub ----

  class Stub {
    var input: seq<Byte>   // what the other side will have sent
    var output: seq<Byte>  // what was sent
    const inBuffer: array<Byte>

    ghost predicate Valid() { inBuffer.Length == BUFMAX }

    constructor (input: seq<Byte>)
      ensures Valid() && this.input == input && output == [] && fresh(inBuffer)
    {
      this.input, output := input, [];
      inBuffer := new Byte[BUFMAX](_ => 0);
    }

    // getDebugChar: not ready when nothing more will come.
    method GetChar() returns (ready: bool, ch: Byte)
      modifies this`input
      ensures ready == (|old(input)| > 0)
      ensures ready ==> ch == old(input)[0] && input == old(input)[1..]
      ensures !ready ==> input == old(input)
    {
      if |input| == 0 {
        return false, 0;
      }
      ready, ch, input := true, input[0], input[1..];
    }

    method PutChar(ch: Byte)
      modifies this`output
      ensures output == old(output) + [ch]
    {
      output := output + [ch];
    }

    // Wait for the start character.
    method AwaitStart() returns (ready: bool)
      requires Valid()
      modifies this`input
      ensures !ready ==> Wait(inBuffer[..], old(input), output) == Waiting(output)
      ensures ready ==>
        |input| < |old(input)| && Wait(inBuffer[..], old(input), output) == Collect(inBuffer[..], input, 0, 0, output)
    {
      var ch;
      ready, ch := GetChar();
      while ready && ch != START
        invariant ready ==> |input| < |old(input)|
        invariant Wait(inBuffer[..], old(input), output) ==
          if !ready then Waiting(output)
          else if ch == START then Collect(inBuffer[..], input, 0, 0, output)
          else Wait(inBuffer[..], input, output)
        decreases ready, |input|
      {
        ready, ch := GetChar();
      }
    }

    // Read up to '#' or the end of the buffer; '$' starts over.
    method ReadText() returns (ready: bool, ended: bool, checksum: Byte)
      requires Valid()
      modifies this`input, inBuffer
      ensures |input| <= |old(input)|
      ensures !ready ==> Collect(old(inBuffer[..]), old(input), 0, 0, output) == Waiting(output)
      ensures ready ==>
        Collect(old(inBuffer[..]), old(input), 0, 0, output) ==
          if ended then Verify(inBuffer[..], input, checksum, output) else Wait(inBuffer[..], input, output)
    {
      var count := 0;
      checksum, ready, ended := 0, true, false;
      while count < BUFMAX - 1
        invariant 0 <= count < BUFMAX && |input| <= |old(input)|
        invariant Collect(old(inBuffer[..]), old(input), 0, 0, output) ==
          Collect(inBuffer[..], input, count, checksum, output)
        decreases |input|
      {
        var ch;
        ready, ch := GetChar();
        if !ready {
          return;
        }
        if ch == START {
          checksum, count := 0, 0;
        } else {
          if ch == END {
            inBuffer[count] := 0;
            return true, true, checksum;
          }
          checksum := (checksum + ch) % 256;
          inBuffer[count] := ch;
          count := count + 1;
        }
      }
      inBuffer[count] := 0;
      ready := true;
    }

    // getpacket: where the text starts in the buffer.
    method GetPacket() returns (ready: bool, start: nat)
      requires Valid()
      modifies this, inBuffer
      ensures Wait(old(inBuffer[..]), old(input), old(output)) ==
        if ready then Packet(start, inBuffer[..], input, output) else Waiting(output)
    {
      ghost var all := Wait(inBuffer[..], input, output);
      start := 0;
      while true
        invariant Wait(inBuffer[..], input, output) == all
        decreases |input|
      {
        ready := AwaitStart();
        if !ready {
          return;
        }
        var ended, checksum;
        ready, ended, checksum := ReadText();
        if !ready {
          return;
        }
        if ended {
          var hi, lo;
          ready, hi := GetChar();
          if ready { ready, lo := GetChar(); }
          if !ready {
            return;
          }
          if checksum != Pair(hi, lo) {
            PutChar(MINUS);
          } else {
            PutChar(PLUS);
            if inBuffer[2] == COLON {
              PutChar(inBuffer[0]);
              PutChar(inBuffer[1]);
              return true, 3;
            }
            return true, 0;
          }
        }
      }
    }

    // One frame of putpacket.
    method PutFrame(buffer: seq<Byte>)
      requires 0 !in buffer
      modifies this`output
      ensures output == old(output) + Frame(buffer)
    {
      PutChar(START);
      var checksum: Byte, count := 0, 0;
      while count < |buffer|
        invariant 0 <= count <= |buffer| && checksum == Checksum(buffer[..count])
        invariant output == old(output) + [START] + buffer[..count]
        modifies this`output
      {
        PutChar(buffer[count]);
        checksum := (checksum + buffer[count]) % 256;
        assert buffer[..count + 1][..count] == buffer[..count];
        count := count + 1;
      }
      assert buffer[..count] == buffer;
      PutChar(END);
      PutChar(Digit(checksum / 16));
      PutChar(Digit(checksum % 16));
      assert output == old(output) + Frame(buffer);
    }

    // putpacket: frames until one is acknowledged.
    method PutPacket(buffer: seq<Byte>) returns (acknowledged: bool)
      requires 0 !in buffer
      modifies this`input, this`output
      ensures output == old(output) + Repeated(buffer, Attempts(old(input)))
      ensures acknowledged <==> PLUS in old(input)
      ensures acknowledged ==> Attempts(old(input)) <= |old(input)| && input == old(input)[Attempts(old(input))..]
    {
      ghost var n := 0;
      ghost var all := input;
      while true
        invariant n <= |all| && input == all[n..] && PLUS !in all[..n] && output == old(output) + Repeated(buffer, n)
        invariant Attempts(all) == n + Attempts(input)
        decreases |input|
      {
        PutFrame(buffer);
        n := n + 1;
        var ready, ch := GetChar();
        if !ready {
          return false;
        }
        if ch == PLUS {
          return true;
        }
      }
    }
  }

  // mem2hex: two digits a byte and a terminator; the position of the latter.
  method Mem2Hex(mem: array<Byte>, buf: array<Byte>, count: nat) returns (end: nat)
    requires mem != buf && count <= mem.Length && 2 * count < buf.Length
    modifies buf
    ensures end == 2 * count && buf[..end] == Dump(mem[..count]) && buf[end] == 0
    ensures buf[end + 1..] == old(buf[end + 1..])
  {
    var i := 0;
    while i < count
      invariant 0 <= i <= count && buf[..2 * i] == Dump(mem[..i]) && buf[2 * count + 1..] == old(buf[2 * count + 1..])
    {
      buf[2 * i] := Digit(mem[i] / 16);
      buf[2 * i + 1] := Digit(mem[i] % 16);
      assert mem[..i + 1][..i] == mem[..i];
      assert buf[..2 * (i + 1)] == buf[..2 * i] + [Digit(mem[i] / 16), Digit(mem[i] % 16)];
      i := i + 1;
    }
    end := 2 * count;
    buf[end] := 0;
  }

  // hex2mem: the position after the last byte written.
  method Hex2Mem(buf: array<Byte>, mem: array<Byte>, count: nat) returns (end: nat)
    requires mem != buf && count <= mem.Length && 2 * count <= buf.Length
    modifies mem
    ensures end == count && mem[..count] == Load(buf[..], count) && mem[count..] == old(mem[count..])
  {
    end := 0;
    while end < count
      invariant end <= count && mem[..end] == Load(buf[..], end) && mem[count..] == old(mem[count..])
    {
      mem[end] := Pair(buf[2 * end], buf[2 * end + 1]);
      assert mem[..end + 1] == mem[..end] + [mem[end]];
      end := end + 1;
    }
  }
}
