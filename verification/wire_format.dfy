/**
 The frame both ends of the wire agree on: mdl/tools/mdl_proto.py on the host computer,
 mdl_proto_send_response() on the device.
 */
module WireFormat {
  import opened Bytes
  import opened Crc32

  /** "MDLC" */
  const MAGIC: seq<Byte> := [0x4D, 0x44, 0x4C, 0x43]
  const HEADER_LEN: nat := 9
  const CRC_LEN: nat := 4

  datatype Frame = Frame(cmd: Byte, payload: seq<Byte>)

  /** What the checksum covers: everything between the magic and itself. */
  function Covered(cmd: Byte, payload: seq<Byte>): seq<Byte>
    requires |payload| < WORD_LIMIT
  {
    [cmd] + Le32(|payload|) + payload
  }

  /** build_frame() */
  function BuildFrame(f: Frame): (bytes: seq<Byte>)
    requires |f.payload| < WORD_LIMIT
    ensures |bytes| == HEADER_LEN + |f.payload| + CRC_LEN
  {
    MAGIC + Covered(f.cmd, f.payload) + Le32(Value(Covered(f.cmd, f.payload)))
  }

  /** The layout of a frame, field by field, as a reader takes it apart. */
  ghost predicate IsFrame(bytes: seq<Byte>, f: Frame) {
    var n := |f.payload|;
    && |bytes| == HEADER_LEN + n + CRC_LEN
    && bytes[..4] == [0x4D, 0x44, 0x4C, 0x43] && bytes[4] == f.cmd
    && FromLe32(bytes[5..9]) == n && bytes[9..9 + n] == f.payload
    && FromLe32(bytes[9 + n..]) == Value(bytes[4..9 + n])
  }

  /** What is built has that layout, and nothing else of that layout carries the same frame. */
  lemma BuiltIff(bytes: seq<Byte>, f: Frame)
    requires |f.payload| < WORD_LIMIT
    ensures bytes == BuildFrame(f) <==> IsFrame(bytes, f)
  {
    hide Le32, FromLe32, Value;
    var n, covered := |f.payload|, Covered(f.cmd, f.payload);
    if bytes == BuildFrame(f) {
      assert bytes[5..9] == Le32(n) && bytes[9..9 + n] == f.payload;
      assert bytes[4..9 + n] == covered && bytes[9 + n..] == Le32(Value(covered));
    }
    if IsFrame(bytes, f) {
      Le32OfFromLe32(bytes[5..9]);
      Le32OfFromLe32(bytes[9 + n..]);
      assert bytes[4..9 + n] == [f.cmd] + bytes[5..9] + bytes[9..9 + n] == covered;
      assert bytes == bytes[..4] + bytes[4..9 + n] + bytes[9 + n..];
    }
  }

  predicate MagicAt(s: seq<Byte>, i: nat) {
    i + 4 <= |s| && s[i] == MAGIC[0] && s[i + 1] == MAGIC[1] && s[i + 2] == MAGIC[2] && s[i + 3] == MAGIC[3]
  }

  /** Text in which the magic does not occur. */
  ghost predicate Plain(s: seq<Byte>) {
    forall i: nat :: i < |s| ==> !MagicAt(s, i)
  }

  /** bytes.find(MAGIC): the first place, or the length. */
  function FindMagic(s: seq<Byte>, from: nat): (i: nat)
    requires from <= |s|
    ensures from <= i <= |s| && (i < |s| ==> MagicAt(s, i))
    ensures forall j: nat :: from <= j < i ==> !MagicAt(s, j)
    decreases |s| - from
  {
    if from == |s| then from else if MagicAt(s, from) then from else FindMagic(s, from + 1)
  }

  datatype Parsed = Incomplete | Parsed(resp: Byte, payload: seq<Byte>, end: nat, leading: seq<Byte>)

  /** parse_frame() */
  function ParseFrame(buf: seq<Byte>): Parsed {
    var i := FindMagic(buf, 0);
    if i == |buf| || |buf| < i + HEADER_LEN then Incomplete
    else
      var length := FromLe32(buf[i + 5..i + 9]);
      var end := i + HEADER_LEN + length + CRC_LEN;
      if |buf| < end then Incomplete
      else Parsed(buf[i + 4], buf[i + HEADER_LEN..i + HEADER_LEN + length], end, buf[..i])
  }

  /** The magic overlaps no shifted copy of itself, so plain text cannot complete one early. */
  lemma FirstMagic(text: seq<Byte>, rest: seq<Byte>)
    requires Plain(text)
    ensures FindMagic(text + MAGIC + rest, 0) == |text|
  {
    var all := text + MAGIC + rest;
    assert all[|text|] == MAGIC[0] && all[|text| + 1] == MAGIC[1] && all[|text| + 2] == MAGIC[2];
    forall i: nat | i < |text|
      ensures !MagicAt(all, i)
    {
      assert i + 4 <= |text| && MagicAt(all, i) ==> MagicAt(text, i);
    }
    assert forall k :: 0 <= k < 4 ==> all[|text| + k] == MAGIC[k];
    assert MagicAt(all, |text|);
  }

  /** A response is read back whole, with the console text before it and nothing after it. */
  lemma ParseReadsBack(text: seq<Byte>, f: Frame, rest: seq<Byte>)
    requires Plain(text) && |f.payload| < WORD_LIMIT
    ensures ParseFrame(text + BuildFrame(f) + rest) == Parsed(f.cmd, f.payload, |text| + |BuildFrame(f)|, text)
  {
    hide Le32, FromLe32, Value, FindMagic;
    var after := Covered(f.cmd, f.payload) + Le32(Value(Covered(f.cmd, f.payload))) + rest;
    var all := text + BuildFrame(f) + rest;
    assert all == text + MAGIC + after;
    FirstMagic(text, after);
    var i := |text|;
    assert all[i + 4] == f.cmd;
    assert all[i + 5..i + 9] == Le32(|f.payload|);
    assert all[i + 9..i + 9 + |f.payload|] == f.payload;
    assert all[..i] == text;
  }

  /** Until its last byte has arrived there is nothing to read. */
  lemma ParseWaits(text: seq<Byte>, f: Frame, k: nat)
    requires Plain(text) && |f.payload| < WORD_LIMIT && k < |text + BuildFrame(f)|
    ensures ParseFrame((text + BuildFrame(f))[..k]).Incomplete?
  {
    hide Le32, FromLe32, Value, FindMagic;
    var all := text + BuildFrame(f);
    var part := all[..k];
    var after := Covered(f.cmd, f.payload) + Le32(Value(Covered(f.cmd, f.payload)));
    assert all == text + MAGIC + after;
    FirstMagic(text, after);
    var i := FindMagic(part, 0);
    assert i < k ==> MagicAt(all, i);
    assert MagicAt(all, |text|);
    assert |text| + 4 <= k ==> MagicAt(part, |text|);
    assert i < k ==> i == |text|;
    if i < k && k >= i + HEADER_LEN {
      LengthField(text, f, part);
    }
  }

  lemma LengthField(text: seq<Byte>, f: Frame, part: seq<Byte>)
    requires |f.payload| < WORD_LIMIT && |text| + HEADER_LEN <= |part| && part <= text + BuildFrame(f)
    ensures part[|text| + 5..|text| + 9] == Le32(|f.payload|)
  {
    hide Le32, FromLe32, Value;
    var all := text + BuildFrame(f);
    assert part[|text| + 5..|text| + 9] == all[|text| + 5..|text| + 9];
  }

  /** parse_frame() does not look at the checksum: a damaged payload is handed over as it is. */
  lemma ParseIgnoresDamage(f: Frame, payload: seq<Byte>)
    requires |f.payload| == |payload| < WORD_LIMIT
    ensures var sent := BuildFrame(f);
            var damaged := sent[..HEADER_LEN] + payload + sent[HEADER_LEN + |payload|..];
            ParseFrame(damaged) == Parsed(f.cmd, payload, |sent|, [])
  {
    hide Le32, FromLe32, Value, FindMagic;
    var sent := BuildFrame(f);
    var damaged := sent[..HEADER_LEN] + payload + sent[HEADER_LEN + |payload|..];
    assert damaged == [] + MAGIC + damaged[4..];
    FirstMagic([], damaged[4..]);
    assert sent[5..9] == Le32(|f.payload|);
    assert damaged[5..9] == sent[5..9] && damaged[4] == sent[4] == f.cmd;
    assert damaged[9..9 + |payload|] == payload && |damaged| == |sent|;
    assert damaged[..0] == [];
  }

  /** mdl_proto_send_response(): header, payload and checksum written in turn. */
  method SendResponse(resp: Byte, payload: seq<Byte>) returns (sent: seq<Byte>)
    requires |payload| < WORD_LIMIT
    ensures sent == BuildFrame(Frame(resp, payload))
  {
    hide Le32, Number, Crc;
    var header := MAGIC + [resp] + Le32(|payload|);
    var crc := MdlCrc32Two(header[4..], payload);
    assert header[4..] + payload == Covered(resp, payload);
    sent := header;
    if |payload| > 0 {
      sent := sent + payload;
    }
    var word := Number(crc);
    assert sent == MAGIC + Covered(resp, payload);
    sent := sent + Le32(word);
  }
}
