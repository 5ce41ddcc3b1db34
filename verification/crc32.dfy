/**
 The checksum of the module format and of the wire protocol: the CRC-32 of IEEE 802.3
 clause 3.2.9, as a 32-bit register (a sequence of bits, least significant first).

 `Update` is the reference definition, the table form of section 8 of RFC 1952. The
 firmware's bit-at-a-time loops are proved against it. `Serial` feeds the register one
 message bit at a time; the error-detection results are proved about it.
 */
module Crc32 {
  import opened Arithmetic
  import opened Bytes

  const BYTE_BITS: nat := 8

  type Bits = seq<bool>
  type Word = w: Bits | |w| == 32 witness Fill(false, 32)

  /** The generator polynomial 0xEDB88320, hexadecimal digits in reverse. */
  const POLY: Word := Hex(0x0) + Hex(0x2) + Hex(0x3) + Hex(0x8) + Hex(0x8) + Hex(0xB) + Hex(0xD) + Hex(0xE)

  function Hex(d: nat): (s: Bits)
    requires d < 16
    ensures |s| == 4
  {
    [d % 2 == 1, d / 2 % 2 == 1, d / 4 % 2 == 1, d / 8 == 1]
  }

  function Fill(bit: bool, n: nat): (s: Bits)
    ensures |s| == n && forall i :: 0 <= i < n ==> s[i] == bit
  {
    seq(n, _ => bit)
  }

  function Ones(): Word { Fill(true, 32) }

  function Xor(a: Bits, b: Bits): (r: Bits)
    requires |a| == |b|
    ensures |r| == |a|
  {
    seq(|a|, i requires 0 <= i < |a| => a[i] != b[i])
  }

  function Shr(c: Word, n: nat): Word
    requires n <= 32
  {
    c[n..] + Fill(false, n)
  }

  /** A short string of bits as a word, zero-extended. */
  function Extend(s: Bits): Word
    requires |s| <= 32
  {
    s + Fill(false, 32 - |s|)
  }

  /** The `n` low bits of an unsigned integer, least significant first. */
  function ToBits(v: nat, n: nat): (s: Bits)
    ensures |s| == n
    decreases n
  {
    if n == 0 then [] else [v % 2 == 1] + ToBits(v / 2, n - 1)
  }

  function FromBits(s: Bits): (v: nat) {
    if s == [] then 0 else (if s[0] then 1 else 0) + 2 * FromBits(s[1..])
  }

  function MessageBits(m: seq<Byte>): (s: Bits)
    ensures |s| == 8 * |m|
  {
    if m == [] then [] else ToBits(m[0], 8) + MessageBits(m[1..])
  }

  /** One division step. */
  function BitStep(c: Word): Word {
    if c[0] then Xor(POLY, Shr(c, 1)) else Shr(c, 1)
  }

  function BitSteps(c: Word, n: nat): Word
    decreases n
  {
    if n == 0 then c else BitSteps(BitStep(c), n - 1)
  }

  /** An entry of the 256-entry table of section 8 of RFC 1952. */
  function Table(n: Bits): Word
    requires |n| == 8
  {
    BitSteps(Extend(n), BYTE_BITS)
  }

  /** One byte through the table: index by the low byte, fold in the rest. */
  function ByteStep(c: Word, b: Byte): Word {
    Xor(Table(Xor(c[..8], ToBits(b, 8))), Shr(c, 8))
  }

  function Update(c: Word, m: seq<Byte>): Word
    decreases m
  {
    if m == [] then c else Update(ByteStep(c, m[0]), m[1..])
  }

  /** The checksum: register preset to ones, complemented at the end. */
  function Crc(m: seq<Byte>): Word {
    Xor(Ones(), Update(Ones(), m))
  }

  /** The register fed one message bit at a time. */
  function Serial(c: Word, s: Bits): Word
    decreases s
  {
    if s == [] then c else Serial(BitStep(c[0 := c[0] != s[0]]), s[1..])
  }

  /** A word as the 32-bit unsigned integer that is stored and compared. */
  function Number(c: Word): (v: nat)
    ensures v < WORD_LIMIT
  {
    FromBitsBound(c);
    assert Power2(8) == 0x100 && Power2(16) == 0x1_0000 && Power2(24) == 0x100_0000;
    assert Power2(32) == WORD_LIMIT;
    FromBits(c)
  }

  function Value(m: seq<Byte>): (v: nat)
    ensures v < WORD_LIMIT
  {
    Number(Crc(m))
  }

  // ---- algebra of one step ---------------------------------------------

  lemma {:induction false} BitStepsLinear(a: Word, b: Word, n: nat)
    ensures BitSteps(Xor(a, b), n) == Xor(BitSteps(a, n), BitSteps(b, n))
    decreases n
  {
    if n > 0 {
      assert BitStep(Xor(a, b)) == Xor(BitStep(a), BitStep(b));
      BitStepsLinear(BitStep(a), BitStep(b), n - 1);
    }
  }

  /** The generator's top coefficient makes a step reversible. */
  lemma BitStepInjective(a: Word, b: Word)
    requires BitStep(a) == BitStep(b)
    ensures a == b
  {
    assert BitStep(a)[31] == a[0] && BitStep(b)[31] == b[0];
    forall i | 0 <= i < 32
      ensures a[i] == b[i]
    {
      if i > 0 {
        assert BitStep(a)[i - 1] == (a[i] != (a[0] && POLY[i - 1]));
        assert BitStep(b)[i - 1] == (b[i] != (b[0] && POLY[i - 1]));
      }
    }
  }

  lemma {:induction false} BitStepsInjective(a: Word, b: Word, n: nat)
    requires BitSteps(a, n) == BitSteps(b, n)
    ensures a == b
    decreases n
  {
    if n > 0 {
      BitStepsInjective(BitStep(a), BitStep(b), n - 1);
      BitStepInjective(a, b);
    }
  }

  lemma {:induction false} SerialInjective(a: Word, b: Word, s: Bits)
    requires Serial(a, s) == Serial(b, s)
    ensures a == b
    decreases s
  {
    if s != [] {
      var a', b' := a[0 := a[0] != s[0]], b[0 := b[0] != s[0]];
      SerialInjective(BitStep(a'), BitStep(b'), s[1..]);
      BitStepInjective(a', b');
      assert forall i :: 0 <= i < 32 ==> a'[i] == b'[i];
      assert forall i :: 0 < i < 32 ==> a[i] == a'[i] && b[i] == b'[i];
    }
  }

  lemma {:induction false} SerialConcat(c: Word, s: Bits, t: Bits)
    ensures Serial(c, s + t) == Serial(Serial(c, s), t)
    decreases s
  {
    if s == [] {
      assert s + t == t;
    } else {
      assert (s + t)[1..] == s[1..] + t;
      SerialConcat(BitStep(c[0 := c[0] != s[0]]), s[1..], t);
    }
  }

  /** Low zero bits are shifted out without feedback. */
  lemma {:induction false} BitStepsOfZeros(c: Word, n: nat)
    requires n <= 32 && forall i :: 0 <= i < n ==> !c[i]
    ensures BitSteps(c, n) == Shr(c, n)
    decreases n
  {
    if n == 0 {
      assert Shr(c, 0) == c;
    } else {
      BitStepsOfZeros(BitStep(c), n - 1);
      assert Shr(Shr(c, 1), n - 1) == Shr(c, n);
    }
  }

  /** Up to a register's width of message bits can be folded in at once. */
  lemma {:induction false} SerialIsBitSteps(c: Word, s: Bits)
    requires |s| <= 32
    ensures Serial(c, s) == BitSteps(Xor(c, Extend(s)), |s|)
    decreases s
  {
    if s == [] {
      assert Xor(c, Extend(s)) == c;
    } else {
      var first := BitStep(c[0 := c[0] != s[0]]);
      var all := Xor(c, Extend(s));
      SerialIsBitSteps(first, s[1..]);
      assert BitStep(all) == Xor(first, Extend(s[1..])) by {
        assert all[0] == (c[0] != s[0]);
        forall i | 0 <= i < 32
          ensures BitStep(all)[i] == Xor(first, Extend(s[1..]))[i]
        {
          if i < 31 {
            assert Extend(s)[i + 1] == Extend(s[1..])[i];
          }
        }
      }
    }
  }

  // ---- the bit loop is the table ---------------------------------------

  lemma ByteLoopIsTable(c: Word, b: Byte)
    ensures BitSteps(Xor(c, Extend(ToBits(b, 8))), BYTE_BITS) == ByteStep(c, b)
  {
    var byte := ToBits(b, 8);
    var low := Extend(Xor(c[..8], byte));
    var high: Word := Fill(false, 8) + c[8..];
    assert Xor(c, Extend(byte)) == Xor(low, high);
    BitStepsLinear(low, high, 8);
    BitStepsOfZeros(high, 8);
    assert Shr(high, 8) == Shr(c, 8);
  }

  lemma {:induction false} UpdateIsSerial(c: Word, m: seq<Byte>)
    ensures Update(c, m) == Serial(c, MessageBits(m))
    decreases m
  {
    if m != [] {
      var byte := ToBits(m[0], 8);
      ByteLoopIsTable(c, m[0]);
      SerialIsBitSteps(c, byte);
      UpdateIsSerial(ByteStep(c, m[0]), m[1..]);
      SerialConcat(c, byte, MessageBits(m[1..]));
    }
  }

  lemma {:induction false} UpdateConcat(c: Word, a: seq<Byte>, b: seq<Byte>)
    ensures Update(c, a + b) == Update(Update(c, a), b)
    decreases a
  {
    if a == [] {
      assert a + b == b;
    } else {
      assert (a + b)[1..] == a[1..] + b;
      UpdateConcat(ByteStep(c, a[0]), a[1..], b);
    }
  }

  function And(a: Word, b: Word): Word {
    seq(32, i requires 0 <= i < 32 => a[i] && b[i])
  }

  /** The branch-free form of a step: the low bit spread into a mask. */
  lemma MaskedStep(c: Word)
    ensures Xor(Shr(c, 1), And(POLY, Fill(c[0], 32))) == BitStep(c)
  {
    var r := Xor(Shr(c, 1), And(POLY, Fill(c[0], 32)));
    assert forall i :: 0 <= i < 32 ==> r[i] == BitStep(c)[i];
  }

  /** The inner loop of crc32_update: eight shift-and-subtract steps. */
  method DivideByte(c0: Word) returns (c: Word)
    ensures c == BitSteps(c0, BYTE_BITS)
  {
    c := c0;
    for bit := 0 to BYTE_BITS
      invariant BitSteps(c, BYTE_BITS - bit) == BitSteps(c0, BYTE_BITS)
    {
      MaskedStep(c);
      var mask := Fill(c[0], 32);
      c := Xor(Shr(c, 1), And(POLY, mask));
    }
  }

  /** mdl/core/crc32.c, crc32_update. */
  method Crc32Update(crc0: Word, data: seq<Byte>) returns (crc: Word)
    ensures crc == Update(crc0, data)
  {
    crc := crc0;
    for i := 0 to |data|
      invariant Update(crc0, data) == Update(crc, data[i..])
    {
      ByteLoopIsTable(crc, data[i]);
      assert data[i..][1..] == data[i + 1..];
      crc := DivideByte(Xor(crc, Extend(ToBits(data[i], 8))));
    }
  }

  /** mdl/core/crc32.c, mdl_crc32. */
  method MdlCrc32(data: seq<Byte>) returns (crc: Word)
    ensures crc == Crc(data)
  {
    var r := Crc32Update(Ones(), data);
    crc := Xor(Ones(), r);
  }

  /** mdl/core/crc32.c, mdl_crc32_2: two buffers, checksummed as one. */
  method MdlCrc32Two(a: seq<Byte>, b: seq<Byte>) returns (crc: Word)
    ensures crc == Crc(a + b)
  {
    var r := Crc32Update(Ones(), a);
    r := Crc32Update(r, b);
    crc := Xor(Ones(), r);
    UpdateConcat(Ones(), a, b);
  }

  // ---- what the checksum detects ---------------------------------------

  /** The two bit strings differ, and only inside 32 consecutive bits from `at`. */
  ghost predicate Burst(s: Bits, t: Bits, at: nat) {
    && |s| == |t| && s != t && at <= |s|
    && s[..at] == t[..at]
    && (at + 32 <= |s| ==> s[at + 32..] == t[at + 32..])
  }

  lemma WindowDetected(c: Word, s: Bits, t: Bits)
    requires |s| == |t| <= 32 && s != t
    ensures Serial(c, s) != Serial(c, t)
  {
    if Serial(c, s) == Serial(c, t) {
      SerialIsBitSteps(c, s);
      SerialIsBitSteps(c, t);
      BitStepsInjective(Xor(c, Extend(s)), Xor(c, Extend(t)), |s|);
      forall i | 0 <= i < |s|
        ensures s[i] == t[i]
      {
        assert Xor(c, Extend(s))[i] == Xor(c, Extend(t))[i];
      }
    }
  }

  /** Any error burst of at most 32 bits, anywhere in a message of any length. */
  lemma BurstDetected(c: Word, s: Bits, t: Bits, at: nat)
    requires Burst(s, t, at)
    ensures Serial(c, s) != Serial(c, t)
  {
    var end := if at + 32 <= |s| then at + 32 else |s|;
    assert s == s[..at] + (s[at..end] + s[end..]);
    assert t == s[..at] + (t[at..end] + s[end..]);
    assert s[at..end] != t[at..end];
    var mid := Serial(c, s[..at]);
    SerialConcat(c, s[..at], s[at..end] + s[end..]);
    SerialConcat(c, s[..at], t[at..end] + s[end..]);
    SerialConcat(mid, s[at..end], s[end..]);
    SerialConcat(mid, t[at..end], s[end..]);
    WindowDetected(mid, s[at..end], t[at..end]);
    if Serial(c, s) == Serial(c, t) {
      SerialInjective(Serial(mid, s[at..end]), Serial(mid, t[at..end]), s[end..]);
    }
  }

  lemma CrcBurst(a: seq<Byte>, b: seq<Byte>, at: nat)
    ensures Burst(MessageBits(a), MessageBits(b), at) ==> Crc(a) != Crc(b)
  {
    hide MessageBits, Burst, Serial, Update;
    if Burst(MessageBits(a), MessageBits(b), at) {
      UpdateIsSerial(Ones(), a);
      UpdateIsSerial(Ones(), b);
      BurstDetected(Ones(), MessageBits(a), MessageBits(b), at);
      var x, y := Update(Ones(), a), Update(Ones(), b);
      assert x != y;
      var i :| 0 <= i < 32 && x[i] != y[i];
      assert Crc(a)[i] != Crc(b)[i];
    }
  }

  lemma {:induction false} FromBitsBound(s: Bits)
    ensures FromBits(s) < Power2(|s|)
  {
    if s != [] {
      FromBitsBound(s[1..]);
    }
  }

  lemma {:induction false} FromBitsInjective(s: Bits, t: Bits)
    requires |s| == |t| && FromBits(s) == FromBits(t)
    ensures s == t
  {
    if s != [] {
      FromBitsInjective(s[1..], t[1..]);
    }
  }

  lemma {:induction false} ToBitsInjective(v: nat, w: nat, n: nat)
    requires ToBits(v, n) == ToBits(w, n)
    requires v < Power2(n) && w < Power2(n)
    ensures v == w
    decreases n
  {
    if n > 0 {
      assert ToBits(v, n)[0] == ToBits(w, n)[0];
      assert ToBits(v, n)[1..] == ToBits(v / 2, n - 1);
      assert ToBits(w, n)[1..] == ToBits(w / 2, n - 1);
      ToBitsInjective(v / 2, w / 2, n - 1);
    }
  }

  lemma {:induction false} MessageBitsConcat(a: seq<Byte>, b: seq<Byte>)
    ensures MessageBits(a + b) == MessageBits(a) + MessageBits(b)
    decreases a
  {
    if a == [] {
      assert a + b == b;
    } else {
      assert (a + b)[1..] == a[1..] + b;
      MessageBitsConcat(a[1..], b);
    }
  }

  lemma {:induction false} MessageBitsInjective(a: seq<Byte>, b: seq<Byte>)
    requires |a| == |b| && MessageBits(a) == MessageBits(b)
    ensures a == b
    decreases a
  {
    if a != [] {
      assert ToBits(a[0], 8) == MessageBits(a)[..8];
      assert ToBits(b[0], 8) == MessageBits(b)[..8];
      assert Power2(8) == 256;
      ToBitsInjective(a[0], b[0], 8);
      assert MessageBits(a)[8..] == MessageBits(a[1..]);
      assert MessageBits(b)[8..] == MessageBits(b[1..]);
      MessageBitsInjective(a[1..], b[1..]);
    }
  }

  /** Damage confined to four consecutive bytes changes the checksum. */
  lemma FourByteDamageDetected(prefix: seq<Byte>, x: seq<Byte>, y: seq<Byte>, suffix: seq<Byte>)
    requires |x| == |y| <= 4 && x != y
    ensures Value(prefix + x + suffix) != Value(prefix + y + suffix)
  {
    hide MessageBits, Crc, FromBits;
    var a, b := prefix + x + suffix, prefix + y + suffix;
    MessageBitsConcat(prefix + x, suffix);
    MessageBitsConcat(prefix + y, suffix);
    MessageBitsConcat(prefix, x);
    MessageBitsConcat(prefix, y);
    if MessageBits(x) == MessageBits(y) {
      MessageBitsInjective(x, y);
    }
    var p, s, t, q := MessageBits(prefix), MessageBits(x), MessageBits(y), MessageBits(suffix);
    var at := |p|;
    assert (p + s + q)[at..at + |s|] == s && (p + t + q)[at..at + |t|] == t;
    assert (p + s + q)[..at] == p == (p + t + q)[..at];
    if at + 32 <= |p + s + q| {
      assert (p + s + q)[at + 32..] == q[32 - |s|..] == (p + t + q)[at + 32..];
    }
    assert Burst(MessageBits(a), MessageBits(b), at);
    CrcBurst(a, b, at);
    if Value(a) == Value(b) {
      FromBitsInjective(Crc(a), Crc(b));
    }
  }
}
