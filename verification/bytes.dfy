/** Bytes and the little-endian 32-bit integers every structure here is built from. */
module Bytes {

  type Byte = b: int | 0 <= b < 256

  const WORD_LIMIT: nat := 0x1_0000_0000

  /** An unsigned 32-bit integer as it lies in memory. */
  function Le32(v: nat): (s: seq<Byte>)
    requires v < WORD_LIMIT
    ensures |s| == 4 && FromLe32(s) == v
  {
    var s: seq<Byte> := [v % 256, v / 256 % 256, v / 256 / 256 % 256, v / 256 / 256 / 256];
    s
  }

  function FromLe32(s: seq<Byte>): (v: nat)
    requires |s| == 4
    ensures v < WORD_LIMIT
  {
    var (b0: int, b1: int, b2: int, b3: int) := (s[0], s[1], s[2], s[3]);
    b0 + 256 * (b1 + 256 * (b2 + 256 * b3))
  }

  /** Lowest byte first, each byte worth 256 times the one before it. */
  lemma LowByteFirst(a: Byte, b: Byte, c: Byte, d: Byte)
    ensures FromLe32([a, b, c, d]) == 0x1 * a as nat + 0x100 * b as nat + 0x1_0000 * c as nat + 0x100_0000 * d as nat
    ensures Le32(0x0403_0201) == [0x01, 0x02, 0x03, 0x04]
  {
  }

  lemma Le32OfFromLe32(s: seq<Byte>)
    requires |s| == 4
    ensures Le32(FromLe32(s)) == s
  {
    var b0: int, b1: int, b2: int, b3: int := s[0], s[1], s[2], s[3];
    var high := b2 + 256 * b3;
    var middle := b1 + 256 * high;
    assert middle / 256 == high && high / 256 == b3;
    assert FromLe32(s) == b0 + 256 * middle && FromLe32(s) / 256 == middle;
  }

  /** A row of such integers. */
  function Words(ws: seq<nat>): (s: seq<Byte>)
    requires forall j :: 0 <= j < |ws| ==> ws[j] < WORD_LIMIT
    ensures |s| == 4 * |ws|
  {
    if ws == [] then [] else Words(ws[..|ws| - 1]) + Le32(ws[|ws| - 1])
  }

  lemma {:induction false} WordsReadBack(ws: seq<nat>, rest: seq<Byte>, i: nat)
    requires i < |ws| && forall j :: 0 <= j < |ws| ==> ws[j] < WORD_LIMIT
    ensures FromLe32((Words(ws) + rest)[4 * i..4 * i + 4]) == ws[i]
    decreases |ws|
  {
    hide Le32, FromLe32;
    var n := |ws| - 1;
    var all, last := Words(ws) + rest, Le32(ws[n]);
    assert all == Words(ws[..n]) + (last + rest);
    if i < n {
      WordsReadBack(ws[..n], last + rest, i);
    } else {
      assert all[4 * i..4 * i + 4] == last;
    }
  }
}
