/**
 The checksum of the nine bytes "123456789", by which implementations of a CRC are told
 apart, worked out four message bits at a time on hexadecimal digits.
 */
module Crc32Check {
  import opened Arithmetic
  import opened Bytes
  import opened Crc32

  type Nibble = d: int | 0 <= d < 16

  /** Hexadecimal digits, lowest first, as bits. */
  function BitsOf(ds: seq<Nibble>): (s: Bits)
    ensures |s| == 4 * |ds|
  {
    if ds == [] then [] else Hex(ds[0]) + BitsOf(ds[1..])
  }

  /** The generator of IEEE 802.3: x^32 is implied, and the other powers lie in reflected order. */
  lemma GeneratorPowers(e: nat)
    requires e < 32
    ensures POLY[31 - e] <==> e in {26, 23, 22, 16, 12, 11, 10, 8, 7, 5, 4, 2, 1, 0}
  {
    HexLiterals();
  }

  // ---- four bits at a time -----------------------------------------------

  /** Exclusive-or of two digits. */
  function Digit(x: Nibble, y: Nibble): Nibble {
    (if x % 2 == y % 2 then 0 else 1) + (if x / 2 % 2 == y / 2 % 2 then 0 else 2)
    + (if x / 4 % 2 == y / 4 % 2 then 0 else 4) + (if x / 8 % 2 == y / 8 % 2 then 0 else 8)
  }

  function XorDigits(a: seq<Nibble>, b: seq<Nibble>): (r: seq<Nibble>)
    requires |a| == |b|
    ensures |r| == |a|
  {
    seq(|a|, i requires 0 <= i < |a| => Digit(a[i], b[i]))
  }

  /** Four zero message bits after a register that holds just this digit. */
  const TABLE: seq<seq<Nibble>> := [
    [0x0, 0x0, 0x0, 0x0, 0x0, 0x0, 0x0, 0x0],
    [0x4, 0x6, 0x0, 0x1, 0x7, 0xB, 0xD, 0x1],
    [0x8, 0xC, 0x0, 0x2, 0xE, 0x6, 0xB, 0x3],
    [0xC, 0xA, 0x0, 0x3, 0x9, 0xD, 0x6, 0x2],
    [0x0, 0x9, 0x1, 0x4, 0xC, 0xD, 0x6, 0x7],
    [0x4, 0xF, 0x1, 0x5, 0xB, 0x6, 0xB, 0x6],
    [0x8, 0x5, 0x1, 0x6, 0x2, 0xB, 0xD, 0x4],
    [0xC, 0x3, 0x1, 0x7, 0x5, 0x0, 0x0, 0x5],
    [0x0, 0x2, 0x3, 0x8, 0x8, 0xB, 0xD, 0xE],
    [0x4, 0x4, 0x3, 0x9, 0xF, 0x0, 0x0, 0xF],
    [0x8, 0xE, 0x3, 0xA, 0x6, 0xD, 0x6, 0xD],
    [0xC, 0x8, 0x3, 0xB, 0x1, 0x6, 0xB, 0xC],
    [0x0, 0xB, 0x2, 0xC, 0x4, 0x6, 0xB, 0x9],
    [0x4, 0xD, 0x2, 0xD, 0x3, 0xD, 0x6, 0x8],
    [0x8, 0x7, 0x2, 0xE, 0xA, 0x0, 0x0, 0xA],
    [0xC, 0x1, 0x2, 0xF, 0xD, 0xB, 0xD, 0xB]]

  function Row(d: Nibble): (r: seq<Nibble>)
    ensures |r| == 8
  {
    TABLE[d]
  }

  /** One nibble into the register. */
  function Next(ds: seq<Nibble>, x: Nibble): (r: seq<Nibble>)
    requires |ds| == 8
    ensures |r| == 8
  {
    var row := Row(Digit(ds[0], x));
    [Digit(row[0], ds[1]), Digit(row[1], ds[2]), Digit(row[2], ds[3]), Digit(row[3], ds[4]),
     Digit(row[4], ds[5]), Digit(row[5], ds[6]), Digit(row[6], ds[7]), row[7]]
  }

  // ---- the digits are the register ---------------------------------------

  lemma HexOfFour(p: bool, q: bool, r: bool, s: bool)
    ensures Hex((if p then 1 else 0) + (if q then 2 else 0) + (if r then 4 else 0) + (if s then 8 else 0)) == [p, q, r, s]
  {
  }

  lemma XorHex(x: Nibble, y: Nibble)
    ensures Xor(Hex(x), Hex(y)) == Hex(Digit(x, y))
  {
    HexOfFour(x % 2 != y % 2, x / 2 % 2 != y / 2 % 2, x / 4 % 2 != y / 4 % 2, x / 8 % 2 != y / 8 % 2);
  }

  lemma {:induction false} XorBits(a: seq<Nibble>, b: seq<Nibble>)
    requires |a| == |b|
    ensures Xor(BitsOf(a), BitsOf(b)) == BitsOf(XorDigits(a, b))
    decreases |a|
  {
    hide Hex, Digit;
    if a != [] {
      XorHex(a[0], b[0]);
      XorBits(a[1..], b[1..]);
      assert XorDigits(a, b)[1..] == XorDigits(a[1..], b[1..]);
      assert Xor(BitsOf(a), BitsOf(b)) == Xor(Hex(a[0]), Hex(b[0])) + Xor(BitsOf(a[1..]), BitsOf(b[1..]));
    }
  }

  lemma {:induction false} BitStepsSplit(c: Word, a: nat, b: nat)
    ensures BitSteps(c, a + b) == BitSteps(BitSteps(c, a), b)
    decreases a
  {
    if a > 0 {
      BitStepsSplit(BitStep(c), a - 1, b);
    }
  }

  lemma {:induction false} BitsConcat(a: seq<Nibble>, b: seq<Nibble>)
    ensures BitsOf(a + b) == BitsOf(a) + BitsOf(b)
    decreases a
  {
    hide Hex;
    if a == [] {
      assert a + b == b;
    } else {
      assert (a + b)[1..] == a[1..] + b;
      BitsConcat(a[1..], b);
    }
  }

  lemma ZeroDigit(x: Nibble)
    ensures Digit(x, 0) == x && BitsOf([0]) == Fill(false, 4)
  {
    assert BitsOf([0]) == Hex(0) + BitsOf([]);
  }

  function OnlyBit(j: nat): Word
    requires j < 4
  {
    seq(32, i requires 0 <= i < 32 => i == j)
  }

  /** The generator has no low powers, so after it comes nothing but shifting. */
  lemma OnlyBitSteps(j: nat)
    requires j < 4
    ensures BitSteps(OnlyBit(j), 4) == Shr(POLY, 3 - j)
  {
    var one := Shr(OnlyBit(j), j);
    BitStepsSplit(OnlyBit(j), j, 4 - j);
    BitStepsOfZeros(OnlyBit(j), j);
    forall i | 0 <= i < 32
      ensures one[i] == (i == 0)
    {
      assert one[i] == if i < 32 - j then OnlyBit(j)[i + j] else false;
    }
    assert BitStep(one) == POLY by {
      assert forall i :: 0 <= i < 32 ==> !Shr(one, 1)[i];
    }
    assert BitSteps(one, 4 - j) == BitSteps(POLY, 3 - j);
    assert forall i :: 0 <= i < 3 ==> !POLY[i];
    BitStepsOfZeros(POLY, 3 - j);
  }

  ghost predicate RowRight(d: Nibble) {
    BitSteps(Extend(Hex(d)), 4) == BitsOf(Row(d))
  }

  lemma Unfolded(ds: seq<Nibble>)
    requires |ds| == 8
    ensures BitsOf(ds) == Hex(ds[0]) + Hex(ds[1]) + Hex(ds[2]) + Hex(ds[3]) + Hex(ds[4]) + Hex(ds[5]) + Hex(ds[6]) + Hex(ds[7])
  {
    hide Hex;
    var (t1, t2, t3, t4) := (ds[1..], ds[2..], ds[3..], ds[4..]);
    var (t5, t6, t7) := (ds[5..], ds[6..], ds[7..]);
    assert t1[1..] == t2 && t2[1..] == t3 && t3[1..] == t4 && t4[1..] == t5 && t5[1..] == t6 && t6[1..] == t7 && t7[1..] == [];
    assert BitsOf(t7) == Hex(ds[7]) + BitsOf(t7[1..]) == Hex(ds[7]);
    assert BitsOf(t6) == Hex(ds[6]) + BitsOf(t7);
    assert BitsOf(t5) == Hex(ds[5]) + BitsOf(t6);
    assert BitsOf(t4) == Hex(ds[4]) + BitsOf(t5);
    assert BitsOf(t3) == Hex(ds[3]) + BitsOf(t4);
    assert BitsOf(t2) == Hex(ds[2]) + BitsOf(t3);
    assert BitsOf(t1) == Hex(ds[1]) + BitsOf(t2);
  }

  lemma RowXor(a: Nibble, b: Nibble, d: Nibble)
    requires RowRight(a) && RowRight(b) && Digit(a, b) == d && XorDigits(Row(a), Row(b)) == Row(d)
    ensures RowRight(d)
  {
    hide Hex, Digit, Row, BitsOf, XorDigits;
    XorHex(a, b);
    assert Xor(Extend(Hex(a)), Extend(Hex(b))) == Extend(Hex(d));
    BitStepsLinear(Extend(Hex(a)), Extend(Hex(b)), 4);
    XorBits(Row(a), Row(b));
  }

  lemma HexLiterals()
    ensures Hex(0x0) == [false, false, false, false] && Hex(0x1) == [true, false, false, false]
    ensures Hex(0x2) == [false, true, false, false] && Hex(0x3) == [true, true, false, false]
    ensures Hex(0x4) == [false, false, true, false] && Hex(0x6) == [false, true, true, false]
    ensures Hex(0x7) == [true, true, true, false] && Hex(0x8) == [false, false, false, true]
    ensures Hex(0x9) == [true, false, false, true] && Hex(0xB) == [true, true, false, true]
    ensures Hex(0xC) == [false, false, true, true] && Hex(0xD) == [true, false, true, true]
    ensures Hex(0xE) == [false, true, true, true]
  {
  }

  /** The rows of a power of two are the generator, shifted. */
  lemma ShiftedGenerator(j: nat, d: Nibble)
    requires j < 4 && Extend(Hex(d)) == OnlyBit(j)
    requires Shr(POLY, 3 - j) == BitsOf(Row(d))
    ensures RowRight(d)
  {
    hide BitsOf, BitSteps, Row;
    OnlyBitSteps(j);
  }

  lemma Row1()
    ensures RowRight(1)
  {
    hide BitsOf, Hex;
    HexLiterals();
    Unfolded(Row(1));
    assert Shr(POLY, 3) == BitsOf(Row(1));
    ShiftedGenerator(0, 1);
  }

  lemma Row2()
    ensures RowRight(2)
  {
    hide BitsOf, Hex;
    HexLiterals();
    Unfolded(Row(2));
    assert Shr(POLY, 2) == BitsOf(Row(2));
    ShiftedGenerator(1, 2);
  }

  lemma Row4()
    ensures RowRight(4)
  {
    hide BitsOf, Hex;
    HexLiterals();
    Unfolded(Row(4));
    assert Shr(POLY, 1) == BitsOf(Row(4));
    ShiftedGenerator(2, 4);
  }

  lemma Row8()
    ensures RowRight(8)
  {
    Unfolded(Row(8));
    hide BitsOf;
    assert Shr(POLY, 0) == BitsOf(Row(8));
    ShiftedGenerator(3, 8);
  }

  lemma Row0()
    ensures RowRight(0)
  {
    Unfolded(Row(0));
    hide BitsOf;
    BitStepsOfZeros(Extend(Hex(0)), 4);
    assert Shr(Extend(Hex(0)), 4) == BitsOf(Row(0));
  }

  lemma BasisRows()
    ensures RowRight(0) && RowRight(1) && RowRight(2) && RowRight(4) && RowRight(8)
  {
    hide RowRight;
    Row0();
    Row1();
    Row2();
    Row4();
    Row8();
  }

  lemma Rows3And6()
    ensures RowRight(3) && RowRight(6)
  {
    hide RowRight;
    BasisRows();
    RowXor(1, 2, 3);
    RowXor(2, 4, 6);
  }

  lemma Rows5And7()
    ensures RowRight(5) && RowRight(7)
  {
    hide RowRight;
    BasisRows();
    Rows3And6();
    RowXor(1, 4, 5);
    RowXor(1, 6, 7);
  }

  lemma Rows9And10()
    ensures RowRight(9) && RowRight(10)
  {
    hide RowRight;
    BasisRows();
    RowXor(8, 1, 9);
    RowXor(8, 2, 10);
  }

  lemma Rows11And12()
    ensures RowRight(11) && RowRight(12)
  {
    hide RowRight;
    BasisRows();
    Rows3And6();
    RowXor(8, 3, 11);
    RowXor(8, 4, 12);
  }

  lemma Rows13To15()
    ensures RowRight(13) && RowRight(14) && RowRight(15)
  {
    hide RowRight;
    BasisRows();
    Rows3And6();
    Rows5And7();
    RowXor(8, 5, 13);
    RowXor(8, 6, 14);
    RowXor(8, 7, 15);
  }

  lemma RowsAreRight(d: Nibble)
    ensures RowRight(d)
  {
    hide RowRight;
    BasisRows();
    Rows3And6();
    Rows5And7();
    Rows9And10();
    Rows11And12();
    Rows13To15();
  }

  lemma NextIsXor(ds: seq<Nibble>, x: Nibble)
    requires |ds| == 8
    ensures Next(ds, x) == XorDigits(Row(Digit(ds[0], x)), ds[1..] + [0])
  {
    hide Digit, Row, BitsOf;
    var row := Row(Digit(ds[0], x));
    ZeroDigit(row[7]);
    var r := XorDigits(row, ds[1..] + [0]);
    assert r[7] == row[7] && forall i :: 0 <= i < 7 ==> r[i] == Digit(row[i], ds[i + 1]);
  }

  /** A register with its lowest digit apart, when `x` is folded into it. */
  lemma FoldedIn(ds: seq<Nibble>, x: Nibble)
    requires |ds| == 8
    ensures Xor(BitsOf(ds), Extend(Hex(x))) == Xor(Extend(Hex(Digit(ds[0], x))), Fill(false, 4) + BitsOf(ds[1..]))
  {
    XorHex(ds[0], x);
    hide Hex, Digit;
    assert BitsOf(ds) == Hex(ds[0]) + BitsOf(ds[1..]);
    hide BitsOf;
    assert Xor(BitsOf(ds), Extend(Hex(x))) == Xor(Hex(ds[0]), Hex(x)) + BitsOf(ds[1..]);
  }

  /** Four message bits through a register given by its digits. */
  lemma NextIsSerial(ds: seq<Nibble>, x: Nibble)
    requires |ds| == 8
    ensures Serial(BitsOf(ds), Hex(x)) == BitsOf(Next(ds, x))
  {
    hide Hex, Digit, Row, Serial, BitSteps, BitsOf, Next, XorDigits, Extend, Xor;
    var d, rest := Digit(ds[0], x), BitsOf(ds[1..]);
    var high: Word := Fill(false, 4) + rest;
    SerialIsBitSteps(BitsOf(ds), Hex(x));
    FoldedIn(ds, x);
    BitStepsLinear(Extend(Hex(d)), high, 4);
    RowsAreRight(d);
    BitStepsOfZeros(high, 4);
    assert Shr(high, 4) == rest + Fill(false, 4);
    BitsConcat(ds[1..], [0]);
    ZeroDigit(0);
    XorBits(Row(d), ds[1..] + [0]);
    NextIsXor(ds, x);
  }

  // ---- nine bytes --------------------------------------------------------

  /** A message by its digits, the lower one of each byte first. */
  function DigitsOf(m: seq<Byte>): (ds: seq<Nibble>)
    ensures |ds| == 2 * |m|
  {
    seq(2 * |m|, i requires 0 <= i < 2 * |m| => if i % 2 == 0 then m[i / 2] % 16 else m[i / 2] / 16)
  }

  lemma Halves(half: nat, low: nat)
    requires low < 2
    ensures (2 * half + low) / 2 == half && (2 * half + low) % 2 == low
  {
  }

  lemma OneMoreBit(half: nat, low: nat, n: nat)
    requires low < 2
    ensures ToBits(2 * half + low, n + 1) == [low == 1] + ToBits(half, n)
  {
    Halves(half, low);
  }

  lemma FourMoreBits(h: nat, p: nat, q: nat, r: nat, s: nat, n: nat)
    requires p < 2 && q < 2 && r < 2 && s < 2
    ensures ToBits(16 * h + (8 * p + 4 * q + 2 * r + s), n + 4) == [s == 1, r == 1, q == 1, p == 1] + ToBits(h, n)
  {
    hide ToBits;
    var y3 := 2 * h + p;
    var y2 := 2 * y3 + q;
    var y1 := 2 * y2 + r;
    OneMoreBit(h, p, n);
    OneMoreBit(y3, q, n + 1);
    OneMoreBit(y2, r, n + 2);
    OneMoreBit(y1, s, n + 3);
  }

  lemma DigitBits(h: nat, d: Nibble, n: nat)
    ensures ToBits(16 * h + d, n + 4) == Hex(d) + ToBits(h, n)
  {
    hide ToBits;
    var (p, q, r, s) := (d / 8, d / 4 % 2, d / 2 % 2, d % 2);
    assert d == 8 * p + 4 * q + 2 * r + s;
    FourMoreBits(h, p, q, r, s, n);
  }

  lemma TwoDigitBits(lo: Nibble, hi: Nibble)
    ensures ToBits(16 * hi + lo, 8) == Hex(lo) + Hex(hi)
  {
    NoBits(0);
    hide ToBits, Hex;
    DigitBits(hi, lo, 4);
    DigitBits(0, hi, 0);
    assert Hex(hi) + [] == Hex(hi);
  }

  lemma NoBits(v: nat)
    ensures ToBits(v, 0) == []
  {
  }

  lemma ByteBits(b: Byte)
    ensures ToBits(b, 8) == Hex(b % 16) + Hex(b / 16)
  {
    hide ToBits, Hex;
    TwoDigitBits(b % 16, b / 16);
  }

  lemma {:induction false} MessageDigits(m: seq<Byte>)
    ensures MessageBits(m) == BitsOf(DigitsOf(m))
    decreases m
  {
    hide Hex, ToBits, BitsOf;
    var ds := DigitsOf(m);
    if m == [] {
      BitsOfNone();
    } else {
      MessageDigits(m[1..]);
      ByteBits(m[0]);
      assert ds[1..][1..] == DigitsOf(m[1..]);
      TwoDigits(ds);
    }
  }

  lemma BitsOfNone()
    ensures BitsOf([]) == []
  {
  }

  lemma TwoDigits(ds: seq<Nibble>)
    requires |ds| >= 2
    ensures BitsOf(ds) == Hex(ds[0]) + Hex(ds[1]) + BitsOf(ds[1..][1..])
  {
    hide Hex;
    assert ds[1..][0] == ds[1];
  }

  /** "123456789" */
  const CHECK_TEXT: seq<Byte> := [0x31, 0x32, 0x33, 0x34, 0x35, 0x36, 0x37, 0x38, 0x39]

  /** After `k` of its digits the register holds these. */
  ghost predicate Reached(k: nat, ds: seq<Nibble>)
    requires k <= 18
  {
    |ds| == 8 && Serial(Ones(), BitsOf(DigitsOf(CHECK_TEXT)[..k])) == BitsOf(ds)
  }

  lemma Advance(k: nat, ds: seq<Nibble>, x: Nibble)
    requires k < 18 && Reached(k, ds) && DigitsOf(CHECK_TEXT)[k] == x
    ensures Reached(k + 1, Next(ds, x))
  {
    hide BitsOf, Next, Hex, Serial, DigitsOf;
    var all := DigitsOf(CHECK_TEXT);
    assert all[..k + 1] == all[..k] + [x];
    BitsConcat(all[..k], [x]);
    OneDigit(x);
    SerialConcat(Ones(), BitsOf(all[..k]), Hex(x));
    NextIsSerial(ds, x);
  }

  lemma OneDigit(x: Nibble)
    ensures BitsOf([x]) == Hex(x)
  {
    hide Hex;
    assert BitsOf([x]) == Hex(x) + [];
  }

  lemma Reached0()
    ensures Reached(0, [0xF, 0xF, 0xF, 0xF, 0xF, 0xF, 0xF, 0xF])
  {
    Unfolded([0xF, 0xF, 0xF, 0xF, 0xF, 0xF, 0xF, 0xF]);
  }

  lemma Reached1()
    ensures Reached(1, [0x7, 0x8, 0xD, 0x1, 0x5, 0xF, 0xF, 0xA])
  {
    assert Next([0xF, 0xF, 0xF, 0xF, 0xF, 0xF, 0xF, 0xF], 0x1) == [0x7, 0x8, 0xD, 0x1, 0x5, 0xF, 0xF, 0xA];
    hide Reached, Next;
    Reached0();
    Advance(0, [0xF, 0xF, 0xF, 0xF, 0xF, 0xF, 0xF, 0xF], 0x1);
  }

  lemma Reached2()
    ensures Reached(2, [0x8, 0x4, 0x0, 0x1, 0x3, 0x2, 0xC, 0x7])
  {
    assert Next([0x7, 0x8, 0xD, 0x1, 0x5, 0xF, 0xF, 0xA], 0x3) == [0x8, 0x4, 0x0, 0x1, 0x3, 0x2, 0xC, 0x7];
    hide Reached, Next;
    Reached1();
    Advance(1, [0x7, 0x8, 0xD, 0x1, 0x5, 0xF, 0xF, 0xA], 0x3);
  }

  lemma Reached3()
    ensures Reached(3, [0xC, 0xE, 0x2, 0x9, 0x4, 0x1, 0x1, 0xD])
  {
    assert Next([0x8, 0x4, 0x0, 0x1, 0x3, 0x2, 0xC, 0x7], 0x2) == [0xC, 0xE, 0x2, 0x9, 0x4, 0x1, 0x1, 0xD];
    hide Reached, Next;
    Reached2();
    Advance(2, [0x8, 0x4, 0x0, 0x1, 0x3, 0x2, 0xC, 0x7], 0x2);
  }

  lemma Reached4()
    ensures Reached(4, [0x2, 0x3, 0xB, 0xB, 0xC, 0xA, 0x0, 0xB])
  {
    assert Next([0xC, 0xE, 0x2, 0x9, 0x4, 0x1, 0x1, 0xD], 0x3) == [0x2, 0x3, 0xB, 0xB, 0xC, 0xA, 0x0, 0xB];
    hide Reached, Next;
    Reached3();
    Advance(3, [0xC, 0xE, 0x2, 0x9, 0x4, 0x1, 0x1, 0xD], 0x3);
  }

  lemma Reached5()
    ensures Reached(5, [0x7, 0xD, 0xB, 0xD, 0xD, 0xB, 0x6, 0x1])
  {
    assert Next([0x2, 0x3, 0xB, 0xB, 0xC, 0xA, 0x0, 0xB], 0x3) == [0x7, 0xD, 0xB, 0xD, 0xD, 0xB, 0x6, 0x1];
    hide Reached, Next;
    Reached4();
    Advance(4, [0x2, 0x3, 0xB, 0xB, 0xC, 0xA, 0x0, 0xB], 0x3);
  }

  lemma Reached6()
    ensures Reached(6, [0xD, 0x2, 0xC, 0x9, 0x7, 0xB, 0x7, 0x7])
  {
    assert Next([0x7, 0xD, 0xB, 0xD, 0xD, 0xB, 0x6, 0x1], 0x3) == [0xD, 0x2, 0xC, 0x9, 0x7, 0xB, 0x7, 0x7];
    hide Reached, Next;
    Reached5();
    Advance(5, [0x7, 0xD, 0xB, 0xD, 0xD, 0xB, 0x6, 0x1], 0x3);
  }

  lemma Reached7()
    ensures Reached(7, [0x6, 0x8, 0xA, 0xE, 0x4, 0x7, 0x7, 0xF])
  {
    assert Next([0xD, 0x2, 0xC, 0x9, 0x7, 0xB, 0x7, 0x7], 0x4) == [0x6, 0x8, 0xA, 0xE, 0x4, 0x7, 0x7, 0xF];
    hide Reached, Next;
    Reached6();
    Advance(6, [0xD, 0x2, 0xC, 0x9, 0x7, 0xB, 0x7, 0x7], 0x4);
  }

  lemma Reached8()
    ensures Reached(8, [0xC, 0x5, 0xF, 0x1, 0xC, 0x1, 0x4, 0x6])
  {
    assert Next([0x6, 0x8, 0xA, 0xE, 0x4, 0x7, 0x7, 0xF], 0x3) == [0xC, 0x5, 0xF, 0x1, 0xC, 0x1, 0x4, 0x6];
    hide Reached, Next;
    Reached7();
    Advance(7, [0x6, 0x8, 0xA, 0xE, 0x4, 0x7, 0x7, 0xF], 0x3);
  }

  lemma Reached9()
    ensures Reached(9, [0x1, 0xB, 0x2, 0x5, 0xE, 0x4, 0x6, 0xF])
  {
    assert Next([0xC, 0x5, 0xF, 0x1, 0xC, 0x1, 0x4, 0x6], 0x5) == [0x1, 0xB, 0x2, 0x5, 0xE, 0x4, 0x6, 0xF];
    hide Reached, Next;
    Reached8();
    Advance(8, [0xC, 0x5, 0xF, 0x1, 0xC, 0x1, 0x4, 0x6], 0x5);
  }

  lemma Reached10()
    ensures Reached(10, [0x3, 0xE, 0x5, 0xC, 0xA, 0x0, 0x4, 0x3])
  {
    assert Next([0x1, 0xB, 0x2, 0x5, 0xE, 0x4, 0x6, 0xF], 0x3) == [0x3, 0xE, 0x5, 0xC, 0xA, 0x0, 0x4, 0x3];
    hide Reached, Next;
    Reached9();
    Advance(9, [0x1, 0xB, 0x2, 0x5, 0xE, 0x4, 0x6, 0xF], 0x3);
  }

  lemma Reached11()
    ensures Reached(11, [0xA, 0xA, 0xD, 0xF, 0xB, 0x2, 0x8, 0x6])
  {
    assert Next([0x3, 0xE, 0x5, 0xC, 0xA, 0x0, 0x4, 0x3], 0x6) == [0xA, 0xA, 0xD, 0xF, 0xB, 0x2, 0x8, 0x6];
    hide Reached, Next;
    Reached10();
    Advance(10, [0x3, 0xE, 0x5, 0xC, 0xA, 0x0, 0x4, 0x3], 0x6);
  }

  lemma Reached12()
    ensures Reached(12, [0xE, 0x9, 0xC, 0x2, 0xD, 0x8, 0x6, 0xF])
  {
    assert Next([0xA, 0xA, 0xD, 0xF, 0xB, 0x2, 0x8, 0x6], 0x3) == [0xE, 0x9, 0xC, 0x2, 0xD, 0x8, 0x6, 0xF];
    hide Reached, Next;
    Reached11();
    Advance(11, [0xA, 0xA, 0xD, 0xF, 0xB, 0x2, 0x8, 0x6], 0x3);
  }

  lemma Reached13()
    ensures Reached(13, [0xD, 0x8, 0x1, 0x4, 0x7, 0x6, 0xF, 0xF])
  {
    assert Next([0xE, 0x9, 0xC, 0x2, 0xD, 0x8, 0x6, 0xF], 0x7) == [0xD, 0x8, 0x1, 0x4, 0x7, 0x6, 0xF, 0xF];
    hide Reached, Next;
    Reached12();
    Advance(12, [0xE, 0x9, 0xC, 0x2, 0xD, 0x8, 0x6, 0xF], 0x7);
  }

  lemma Reached14()
    ensures Reached(14, [0x0, 0x6, 0x6, 0x9, 0xC, 0xF, 0xF, 0xA])
  {
    assert Next([0xD, 0x8, 0x1, 0x4, 0x7, 0x6, 0xF, 0xF], 0x3) == [0x0, 0x6, 0x6, 0x9, 0xC, 0xF, 0xF, 0xA];
    hide Reached, Next;
    Reached13();
    Advance(13, [0xD, 0x8, 0x1, 0x4, 0x7, 0x6, 0xF, 0xF], 0x3);
  }

  lemma Reached15()
    ensures Reached(15, [0x6, 0x4, 0xA, 0x4, 0x7, 0x4, 0x7, 0xE])
  {
    assert Next([0x0, 0x6, 0x6, 0x9, 0xC, 0xF, 0xF, 0xA], 0x8) == [0x6, 0x4, 0xA, 0x4, 0x7, 0x4, 0x7, 0xE];
    hide Reached, Next;
    Reached14();
    Advance(14, [0x0, 0x6, 0x6, 0x9, 0xC, 0xF, 0xF, 0xA], 0x8);
  }

  lemma Reached16()
    ensures Reached(16, [0x0, 0x5, 0x5, 0x2, 0xF, 0x1, 0x5, 0x6])
  {
    assert Next([0x6, 0x4, 0xA, 0x4, 0x7, 0x4, 0x7, 0xE], 0x3) == [0x0, 0x5, 0x5, 0x2, 0xF, 0x1, 0x5, 0x6];
    hide Reached, Next;
    Reached15();
    Advance(15, [0x6, 0x4, 0xA, 0x4, 0x7, 0x4, 0x7, 0xE], 0x3);
  }

  lemma Reached17()
    ensures Reached(17, [0x1, 0x1, 0x1, 0x6, 0xE, 0x5, 0x6, 0xF])
  {
    assert Next([0x0, 0x5, 0x5, 0x2, 0xF, 0x1, 0x5, 0x6], 0x9) == [0x1, 0x1, 0x1, 0x6, 0xE, 0x5, 0x6, 0xF];
    hide Reached, Next;
    Reached16();
    Advance(16, [0x0, 0x5, 0x5, 0x2, 0xF, 0x1, 0x5, 0x6], 0x9);
  }

  lemma Reached18()
    ensures Reached(18, [0x9, 0xD, 0x6, 0xC, 0xB, 0x0, 0x4, 0x3])
  {
    assert Next([0x1, 0x1, 0x1, 0x6, 0xE, 0x5, 0x6, 0xF], 0x3) == [0x9, 0xD, 0x6, 0xC, 0xB, 0x0, 0x4, 0x3];
    hide Reached, Next;
    Reached17();
    Advance(17, [0x1, 0x1, 0x1, 0x6, 0xE, 0x5, 0x6, 0xF], 0x3);
  }

  function DigitsNumber(ds: seq<Nibble>): nat {
    if ds == [] then 0 else ds[0] + 16 * DigitsNumber(ds[1..])
  }

  lemma HexDigit(d: Nibble, rest: Bits)
    ensures FromBits(Hex(d) + rest) == d + 16 * FromBits(rest)
  {
    var (h, s0) := (Hex(d), Hex(d) + rest);
    assert d == (if h[0] then 1 else 0) + (if h[1] then 2 else 0) + (if h[2] then 4 else 0) + (if h[3] then 8 else 0);
    hide Hex;
    var s1 := s0[1..];
    var s2 := s1[1..];
    var s3 := s2[1..];
    assert s3[1..] == rest;
    assert FromBits(s0) == (if h[0] then 1 else 0) + 2 * FromBits(s1);
    assert FromBits(s1) == (if h[1] then 1 else 0) + 2 * FromBits(s2);
    assert FromBits(s2) == (if h[2] then 1 else 0) + 2 * FromBits(s3);
    assert FromBits(s3) == (if h[3] then 1 else 0) + 2 * FromBits(rest);
  }

  lemma {:induction false} NumberOfDigits(ds: seq<Nibble>)
    ensures FromBits(BitsOf(ds)) == DigitsNumber(ds)
  {
    hide Hex;
    if ds != [] {
      HexDigit(ds[0], BitsOf(ds[1..]));
      NumberOfDigits(ds[1..]);
    }
  }

  function EightNumber(a: nat, b: nat, c: nat, d: nat, e: nat, f: nat, g: nat, h: nat): nat {
    a + 16 * (b + 16 * (c + 16 * (d + 16 * (e + 16 * (f + 16 * (g + 16 * h))))))
  }

  lemma EightDigits(ds: seq<Nibble>)
    requires |ds| == 8
    ensures DigitsNumber(ds) == EightNumber(ds[0], ds[1], ds[2], ds[3], ds[4], ds[5], ds[6], ds[7])
  {
    var (t1, t2, t3, t4) := (ds[1..], ds[2..], ds[3..], ds[4..]);
    var (t5, t6, t7) := (ds[5..], ds[6..], ds[7..]);
    assert t1[1..] == t2 && t2[1..] == t3 && t3[1..] == t4 && t4[1..] == t5 && t5[1..] == t6 && t6[1..] == t7 && t7[1..] == [];
    assert DigitsNumber(t7) == ds[7];
    assert DigitsNumber(t6) == ds[6] + 16 * DigitsNumber(t7);
    assert DigitsNumber(t5) == ds[5] + 16 * DigitsNumber(t6);
    assert DigitsNumber(t4) == ds[4] + 16 * DigitsNumber(t5);
    assert DigitsNumber(t3) == ds[3] + 16 * DigitsNumber(t4);
    assert DigitsNumber(t2) == ds[2] + 16 * DigitsNumber(t3);
    assert DigitsNumber(t1) == ds[1] + 16 * DigitsNumber(t2);
  }

  /** The check value of CRC-32 as IEEE 802.3 and zlib define it. */
  lemma CheckValue()
    ensures Value(CHECK_TEXT) == 0xCBF4_3926
  {
    var ones: seq<Nibble> := [0xF, 0xF, 0xF, 0xF, 0xF, 0xF, 0xF, 0xF];
    var last: seq<Nibble> := [0x9, 0xD, 0x6, 0xC, 0xB, 0x0, 0x4, 0x3];
    var sum: seq<Nibble> := [0x6, 0x2, 0x9, 0x3, 0x4, 0xF, 0xB, 0xC];
    assert XorDigits(ones, last) == sum;
    assert Ones() == BitsOf(ones) by {
      Reached0();
      assert DigitsOf(CHECK_TEXT)[..0] == [];
    }
    hide BitsOf, Update, Serial, FromBits, DigitsNumber, XorDigits, DigitsOf, Ones, Xor;
    Reached18();
    assert DigitsOf(CHECK_TEXT)[..18] == DigitsOf(CHECK_TEXT);
    MessageDigits(CHECK_TEXT);
    UpdateIsSerial(Ones(), CHECK_TEXT);
    XorBits(ones, last);
    NumberOfDigits(sum);
    EightDigits(sum);
  }
}
