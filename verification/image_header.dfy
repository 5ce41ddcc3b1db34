/**
 mdl_header_t as 96 bytes: what struct.pack() of mdl/tools/packer.py writes in front of the
 payload, and what the device reads back from a frame or from flash.
 */
module ImageHeader {
  import opened Bytes
  import CommandNames
  import FlashFormat
  import opened ImageFormat
  import Loading

  /** "MDL0" */
  const MDL_MAGIC: nat := 0x304C_444D
  const HEADER_SIZE: nat := 96
  const HALF_WORD: nat := 0x1_0000

  /** The fourteen words before the names. */
  function FrontWords(m: Image, abi: nat, arch: nat): (ws: seq<nat>)
    ensures |ws| == 14
  {
    [MDL_MAGIC, abi + HALF_WORD * arch, m.crc, m.textSize, m.dataSize, m.bssSize, m.gotOff, m.gotCount, m.initOff,
     m.relocOff, m.relocCount, m.cmdOff, m.resOff, m.resCount]
  }

  /** The two behind them. */
  function BackWords(m: Image): (ws: seq<nat>)
    ensures |ws| == 2
  {
    [m.evtOff, m.depth + HALF_WORD * m.rate]
  }

  /** Every field fits its place. */
  predicate Encodable(m: Image, abi: nat, arch: nat) {
    && abi < HALF_WORD && arch < HALF_WORD && m.depth < HALF_WORD && m.rate < HALF_WORD
    && |m.cmdName| == CommandNames.CMD_NAME_MAX && |m.name| == FlashFormat.NAME_MAX
    && (forall i :: 0 <= i < 14 ==> FrontWords(m, abi, arch)[i] < WORD_LIMIT)
    && (forall i :: 0 <= i < 2 ==> BackWords(m)[i] < WORD_LIMIT)
  }

  function Encode(m: Image, abi: nat, arch: nat): (bytes: seq<Byte>)
    requires Encodable(m, abi, arch)
    ensures |bytes| == HEADER_SIZE + |m.payload|
  {
    Words(FrontWords(m, abi, arch)) + (m.cmdName + m.name + (Words(BackWords(m)) + m.payload))
  }

  /** The record of a header that is not there. */
  function Blank(): Image {
    var zeros: seq<Byte> := seq(16, _ => 0);
    Image(0, 0, 0, 0, 0, 0, 0, 0, 0, 0, 0, 0, zeros, zeros, 0, 0, 0, [])
  }

  /** How the device sees a byte string, given the ABI version and architecture it expects. */
  function Decode(bytes: seq<Byte>, abi: nat, arch: nat): (image: Loading.Image)
    ensures |image.file.name| == FlashFormat.NAME_MAX && |image.file.cmdName| == CommandNames.CMD_NAME_MAX
  {
    if |bytes| < HEADER_SIZE then Loading.Image(false, Blank())
    else
      var last := Get32(bytes, 92);
      Loading.Image(
        Get32(bytes, 0) == MDL_MAGIC && Get32(bytes, 4) == abi + HALF_WORD * arch,
        Image(Get32(bytes, 8), Get32(bytes, 12), Get32(bytes, 16), Get32(bytes, 20), Get32(bytes, 24), Get32(bytes, 28), Get32(bytes, 32),
              Get32(bytes, 36), Get32(bytes, 40), Get32(bytes, 44), Get32(bytes, 48), Get32(bytes, 52), bytes[56..72], bytes[72..88],
              Get32(bytes, 88), last % HALF_WORD, last / HALF_WORD, bytes[HEADER_SIZE..]))
  }

  lemma FrontReadsBack(m: Image, abi: nat, arch: nat, i: nat)
    requires Encodable(m, abi, arch) && i < 14
    ensures Get32(Encode(m, abi, arch), 4 * i) == FrontWords(m, abi, arch)[i]
  {
    hide Words, FromLe32, FrontWords, BackWords;
    WordsReadBack(FrontWords(m, abi, arch), m.cmdName + m.name + (Words(BackWords(m)) + m.payload), i);
  }

  lemma BackReadsBack(m: Image, abi: nat, arch: nat, i: nat)
    requires Encodable(m, abi, arch) && i < 2
    ensures Get32(Encode(m, abi, arch), 88 + 4 * i) == BackWords(m)[i]
  {
    hide Words, FromLe32, FrontWords, BackWords;
    var bytes, tail := Encode(m, abi, arch), Words(BackWords(m)) + m.payload;
    WordsReadBack(BackWords(m), m.payload, i);
    assert bytes == Words(FrontWords(m, abi, arch)) + m.cmdName + m.name + tail;
    assert bytes[88 + 4 * i..88 + 4 * i + 4] == tail[4 * i..4 * i + 4];
  }

  lemma BlobsReadBack(m: Image, abi: nat, arch: nat)
    requires Encodable(m, abi, arch)
    ensures var bytes := Encode(m, abi, arch);
            bytes[56..72] == m.cmdName && bytes[72..88] == m.name && bytes[HEADER_SIZE..] == m.payload
  {
    hide Words, FrontWords, BackWords;
    var bytes := Encode(m, abi, arch);
    assert bytes == Words(FrontWords(m, abi, arch)) + m.cmdName + m.name + Words(BackWords(m)) + m.payload;
  }

  /** Whatever the packer wrote the device reads. */
  lemma ReadsBack(m: Image, abi: nat, arch: nat)
    requires Encodable(m, abi, arch)
    ensures Decode(Encode(m, abi, arch), abi, arch) == Loading.Image(true, m)
  {
    hide Words, Get32, Encode;
    forall i: nat | i < 14
      ensures Get32(Encode(m, abi, arch), 4 * i) == FrontWords(m, abi, arch)[i]
    {
      FrontReadsBack(m, abi, arch, i);
    }
    FrontFields(Encode(m, abi, arch), FrontWords(m, abi, arch));
    BackReadsBack(m, abi, arch, 0);
    BackReadsBack(m, abi, arch, 1);
    BlobsReadBack(m, abi, arch);
    HalvesOf(m.depth, m.rate);
  }

  /** Where each field of the header lies, in bytes from its start. */
  lemma HeaderLayout(m: Image, abi: nat, arch: nat)
    requires Encodable(m, abi, arch)
    ensures var b := Encode(m, abi, arch);
            && |b| == 96 + |m.payload| && b[..4] == [0x4D, 0x44, 0x4C, 0x30] && Get32(b, 4) == abi + 0x1_0000 * arch
            && Get32(b, 8) == m.crc && Get32(b, 12) == m.textSize && Get32(b, 16) == m.dataSize && Get32(b, 20) == m.bssSize
            && Get32(b, 24) == m.gotOff && Get32(b, 28) == m.gotCount && Get32(b, 32) == m.initOff
            && Get32(b, 36) == m.relocOff && Get32(b, 40) == m.relocCount && Get32(b, 44) == m.cmdOff
            && Get32(b, 48) == m.resOff && Get32(b, 52) == m.resCount && b[56..72] == m.cmdName && b[72..88] == m.name
            && Get32(b, 88) == m.evtOff && Get32(b, 92) == m.depth + 0x1_0000 * m.rate && b[96..] == m.payload
  {
    var b := Encode(m, abi, arch);
    MagicBytes(b);
    hide Words, Get32, Encode, FromLe32;
    forall i: nat | i < 14
      ensures Get32(b, 4 * i) == FrontWords(m, abi, arch)[i]
    {
      FrontReadsBack(m, abi, arch, i);
    }
    FrontFields(b, FrontWords(m, abi, arch));
    BackReadsBack(m, abi, arch, 0);
    BackReadsBack(m, abi, arch, 1);
    BlobsReadBack(m, abi, arch);
  }

  lemma MagicBytes(b: seq<Byte>)
    requires |b| >= 4
    ensures Get32(b, 0) == MDL_MAGIC ==> b[..4] == [0x4D, 0x44, 0x4C, 0x30]
  {
    assert FromLe32([0x4D, 0x44, 0x4C, 0x30]) == 0x304C_444D;
    Le32OfFromLe32([0x4D, 0x44, 0x4C, 0x30]);
    Le32OfFromLe32(b[..4]);
    assert b[0..4] == b[..4];
  }

  /** The device takes a header for its own by the magic, the ABI version and the architecture alone. */
  lemma HeaderOkIff(bytes: seq<Byte>, abi: nat, arch: nat)
    requires abi < 0x1_0000 && arch < 0x1_0000
    ensures Decode(bytes, abi, arch).headerOk <==>
            && |bytes| >= 96 && bytes[..4] == [0x4D, 0x44, 0x4C, 0x30]
            && bytes[4] as nat + 0x100 * bytes[5] as nat == abi && bytes[6] as nat + 0x100 * bytes[7] as nat == arch
  {
    if |bytes| >= 96 {
      MagicBytes(bytes);
      assert FromLe32([0x4D, 0x44, 0x4C, 0x30]) == 0x304C_444D;
      assert bytes[0..4] == bytes[..4];
      var lo, hi := bytes[4] as nat + 0x100 * bytes[5] as nat, bytes[6] as nat + 0x100 * bytes[7] as nat;
      assert Get32(bytes, 4) == lo + HALF_WORD * hi;
    }
  }

  lemma FrontFields(bytes: seq<Byte>, ws: seq<nat>)
    requires |bytes| >= 56 && |ws| == 14 && forall i: nat :: i < 14 ==> Get32(bytes, 4 * i) == ws[i]
    ensures Get32(bytes, 0) == ws[0] && Get32(bytes, 4) == ws[1] && Get32(bytes, 8) == ws[2] && Get32(bytes, 12) == ws[3]
    ensures Get32(bytes, 16) == ws[4] && Get32(bytes, 20) == ws[5] && Get32(bytes, 24) == ws[6] && Get32(bytes, 28) == ws[7]
    ensures Get32(bytes, 32) == ws[8] && Get32(bytes, 36) == ws[9] && Get32(bytes, 40) == ws[10] && Get32(bytes, 44) == ws[11]
    ensures Get32(bytes, 48) == ws[12] && Get32(bytes, 52) == ws[13]
  {
    hide Get32;
    assert forall i: nat :: i < 14 ==> 4 * i + 4 <= |bytes|;
    assert Get32(bytes, 4 * 0) == ws[0] && Get32(bytes, 4 * 1) == ws[1] && Get32(bytes, 4 * 2) == ws[2] && Get32(bytes, 4 * 3) == ws[3];
    assert Get32(bytes, 4 * 4) == ws[4] && Get32(bytes, 4 * 5) == ws[5] && Get32(bytes, 4 * 6) == ws[6] && Get32(bytes, 4 * 7) == ws[7];
    assert Get32(bytes, 4 * 8) == ws[8] && Get32(bytes, 4 * 9) == ws[9] && Get32(bytes, 4 * 10) == ws[10] && Get32(bytes, 4 * 11) == ws[11];
    assert Get32(bytes, 4 * 12) == ws[12] && Get32(bytes, 4 * 13) == ws[13];
  }

  lemma HalvesOf(lo: nat, hi: nat)
    requires lo < HALF_WORD
    ensures (lo + HALF_WORD * hi) % HALF_WORD == lo && (lo + HALF_WORD * hi) / HALF_WORD == hi
  {
  }

  /** The name the store compares is the one the supervisor looks at. */
  lemma OneName(bytes: seq<Byte>, abi: nat, arch: nat)
    requires HEADER_SIZE <= |bytes|
    ensures FlashFormat.HasName(bytes) && FlashFormat.NameField(bytes) == Decode(bytes, abi, arch).file.name
  {
  }
}
