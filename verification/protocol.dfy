/** mdl/transport/protocol.c: the byte-at-a-time parser, refining Link one call at a time. */
module Protocol {
  import opened Bytes
  import opened Crc32
  import opened Link
  import opened WireFormat

  datatype RxState = RxMagic | RxCmd | RxLen | RxPayload | RxCrc

  class Parser {
    var state: RxState
    var fieldPos: nat
    const magicBuf: array<Byte>
    var cmd: Byte
    const lenBuf: array<Byte>
    var len: nat
    const payload: array<Byte>
    const crcBuf: array<Byte>
    var frameReady: bool
    var readyCmd: Byte
    var readyLen: nat
    /** What mdl_console_rx_byte() has been given. */
    var console: seq<Byte>
    /** The frames announced so far. */
    ghost var log: seq<Frame>

    ghost predicate Buffers() {
      && magicBuf.Length == 4 && lenBuf.Length == 4 && crcBuf.Length == 4 && payload.Length == MAX_PAYLOAD
      && magicBuf != lenBuf && magicBuf != crcBuf && magicBuf != payload
      && lenBuf != crcBuf && lenBuf != payload && crcBuf != payload
    }

    ghost predicate Valid()
      reads this, magicBuf, lenBuf, crcBuf, payload
    {
      && Buffers() && readyLen <= MAX_PAYLOAD
      && match state
         case RxMagic => fieldPos < 4 && magicBuf[..fieldPos] == MAGIC[..fieldPos]
         case RxCmd => fieldPos == 0
         case RxLen => fieldPos < 4
         case RxPayload => fieldPos < len <= MAX_PAYLOAD && lenBuf[..] == Le32(len)
         case RxCrc => fieldPos < 4 && len <= MAX_PAYLOAD && lenBuf[..] == Le32(len)
    }

    ghost function Phase(): Rx
      requires Valid()
      reads this, magicBuf, lenBuf, crcBuf, payload
    {
      match state
      case RxMagic => Magic(fieldPos)
      case RxCmd => Rx.Cmd
      case RxLen => Length(cmd, lenBuf[..fieldPos])
      case RxPayload => Payload(cmd, len, fieldPos)
      case RxCrc => Check(cmd, len, crcBuf[..fieldPos])
    }

    ghost function Abs(): (s: State)
      requires Valid()
      reads this, magicBuf, lenBuf, crcBuf, payload
      ensures Sound(s)
    {
      State(Phase(), payload[..], frameReady, readyCmd, readyLen, console, log)
    }

    constructor ()
      ensures Valid() && Abs().rx == Magic(0) && !frameReady && console == [] && log == []
      ensures fresh(magicBuf) && fresh(lenBuf) && fresh(crcBuf) && fresh(payload)
    {
      state, fieldPos, cmd, len := RxMagic, 0, 0, 0;
      magicBuf := new Byte[4](_ => 0);
      lenBuf := new Byte[4](_ => 0);
      crcBuf := new Byte[4](_ => 0);
      payload := new Byte[MAX_PAYLOAD](_ => 0);
      frameReady, readyCmd, readyLen := false, 0, 0;
      console, log := [], [];
    }

    /** mdl_proto_rx_byte() */
    method RxByte(b: Byte)
      requires Valid()
      modifies this, magicBuf, lenBuf, crcBuf, payload
      ensures Valid() && Abs() == Feed(old(Abs()), b)
    {
      match state
      case RxMagic =>
        MatchMagic(b);
      case RxCmd =>
        cmd := b;
        state, fieldPos := RxLen, 0;
      case RxLen =>
        TakeLength(b);
      case RxPayload =>
        payload[fieldPos] := b;
        fieldPos := fieldPos + 1;
        if fieldPos == len {
          fieldPos, state := 0, RxCrc;
        }
      case RxCrc =>
        TakeCrc(b);
    }

    /** case RX_MAGIC: match the magic incrementally, release what was held when it breaks. */
    method MatchMagic(b: Byte)
      requires Valid() && state == RxMagic
      modifies this`state, this`fieldPos, this`console, magicBuf
      ensures Valid() && Abs() == Feed(old(Abs()), b)
    {
      hide FromLe32, Le32, Checked, Sized, Covered;
      if b == MAGIC[fieldPos] {
        magicBuf[fieldPos] := b;
        fieldPos := fieldPos + 1;
        if fieldPos == 4 {
          state, fieldPos := RxCmd, 0;
        }
        return;
      }
      for i := 0 to fieldPos
        invariant console == old(console) + MAGIC[..i]
        modifies this`console
      {
        console := console + [magicBuf[i]];
      }
      fieldPos := 0;
      if b == MAGIC[0] {
        magicBuf[fieldPos] := b;
        fieldPos := fieldPos + 1;
      } else {
        console := console + [b];
      }
    }

    /** case RX_LEN: four bytes, then resynchronise rather than trust an oversized count. */
    method TakeLength(b: Byte)
      requires Valid() && state == RxLen
      modifies this`state, this`fieldPos, this`len, lenBuf
      ensures Valid() && Abs() == Feed(old(Abs()), b)
    {
      hide FromLe32, Le32, Matched, Checked, Covered;
      ghost var got := lenBuf[..fieldPos];
      lenBuf[fieldPos] := b;
      fieldPos := fieldPos + 1;
      if fieldPos == 4 {
        assert lenBuf[..] == got + [b];
        len := FromLe32(lenBuf[..]);
        Le32OfFromLe32(lenBuf[..]);
        if len > MAX_PAYLOAD {
          state, fieldPos := RxMagic, 0;
          return;
        }
        fieldPos := 0;
        state := if len > 0 then RxPayload else RxCrc;
      }
    }

    /** case RX_CRC: four bytes, then the decision. */
    method TakeCrc(b: Byte)
      requires Valid() && state == RxCrc
      modifies this`state, this`fieldPos, this`frameReady, this`readyCmd, this`readyLen, this`log, crcBuf
      ensures Valid() && Abs() == Feed(old(Abs()), b)
    {
      hide FromLe32, Le32, Matched, Sized, Checked;
      ghost var was := Abs();
      crcBuf[fieldPos] := b;
      fieldPos := fieldPos + 1;
      if fieldPos == 4 {
        assert crcBuf[..] == was.rx.got + [b];
        CloseFrame(was);
      }
    }

    /** The checksum over header and payload decides. */
    method CloseFrame(ghost was: State)
      requires Buffers() && readyLen <= MAX_PAYLOAD && state == RxCrc && fieldPos == 4 && len <= MAX_PAYLOAD && lenBuf[..] == Le32(len)
      requires was == State(was.rx, payload[..], frameReady, readyCmd, readyLen, console, log)
      modifies this`state, this`fieldPos, this`frameReady, this`readyCmd, this`readyLen, this`log
      ensures Valid() && Abs() == Checked(was, cmd, len, FromLe32(crcBuf[..]))
    {
      hide FromLe32, Le32, Crc, Number;
      var gotCrc := FromLe32(crcBuf[..]);
      var header := [cmd] + lenBuf[..];
      var computed := MdlCrc32Two(header, payload[..len]);
      assert header + payload[..len] == Covered(cmd, payload[..len]);
      if Number(computed) == gotCrc {
        readyCmd, readyLen, frameReady := cmd, len, true;
        log := log + [Frame(cmd, payload[..len])];
      }
      state, fieldPos := RxMagic, 0;
    }

    /** mdl_proto_take_frame() */
    method TakeFrame() returns (got: bool, frame: Frame)
      requires Valid()
      modifies this`frameReady
      ensures Valid() && Abs() == old(Abs()).(ready := false)
      ensures (if got then [frame] else []) == old(Pending(Abs()))
    {
      got, frame := false, Frame(0, []);
      if frameReady {
        got, frame := true, Frame(readyCmd, payload[..readyLen]);
        frameReady := false;
      }
    }
  }

  /** A stream and a schedule of takes, driven through the parser. */
  method Serve(p: Parser, steps: seq<Step>) returns (taken: seq<Frame>)
    requires p.Valid()
    modifies p, p.magicBuf, p.lenBuf, p.crcBuf, p.payload
    ensures p.Valid() && Run(old(p.Abs()), steps) == (p.Abs(), taken)
  {
    hide Feed;
    taken := [];
    for n := 0 to |steps|
      invariant p.Valid() && Run(old(p.Abs()), steps[..n]) == (p.Abs(), taken)
    {
      assert steps[..n + 1][..n] == steps[..n];
      match steps[n]
      case Arrives(b) =>
        p.RxByte(b);
      case TakeFrame =>
        var got, frame := p.TakeFrame();
        taken := taken + (if got then [frame] else []);
    }
    assert steps[..|steps|] == steps;
  }
}
