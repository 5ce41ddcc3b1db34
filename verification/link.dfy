/**
 What the device's end of the wire does to a byte stream, as a function of the stream: text
 goes to the console, intact frames are logged, everything else is dropped.
 */
module Link {
  import opened Bytes
  import opened Crc32
  import opened WireFormat

  /** MDL_PROTO_MAX_PAYLOAD */
  const MAX_PAYLOAD: nat := 32768

  datatype Rx =
    | Magic(held: nat)
    | Cmd
    | Length(cmd: Byte, got: seq<Byte>)
    | Payload(cmd: Byte, len: nat, pos: nat)
    | Check(cmd: Byte, len: nat, got: seq<Byte>)

  /** The parser, the buffer it fills, what it announced, and what came out of it so far. */
  datatype State = State(rx: Rx, buf: seq<Byte>, ready: bool, readyCmd: Byte, readyLen: nat,
                         console: seq<Byte>, log: seq<Frame>)

  predicate Sound(s: State) {
    && |s.buf| == MAX_PAYLOAD && s.readyLen <= MAX_PAYLOAD
    && match s.rx
       case Magic(held) => held < 4
       case Cmd => true
       case Length(_, got) => |got| < 4
       case Payload(_, len, pos) => pos < len <= MAX_PAYLOAD
       case Check(_, len, got) => len <= MAX_PAYLOAD && |got| < 4
  }

  /** What was completed or dropped leaves the parser looking for a magic. */
  function Restarted(s: State): State {
    s.(rx := Magic(0))
  }

  function Announced(s: State, cmd: Byte, len: nat): State
    requires len <= |s.buf|
  {
    s.(ready := true, readyCmd := cmd, readyLen := len, log := s.log + [Frame(cmd, s.buf[..len])])
  }

  function Matched(s: State, held: nat, b: Byte): State
    requires held < 4
  {
    if b == MAGIC[held] then s.(rx := if held == 3 then Cmd else Magic(held + 1))
    else if b == MAGIC[0] then s.(console := s.console + MAGIC[..held], rx := Magic(1))
    else s.(console := s.console + MAGIC[..held] + [b], rx := Magic(0))
  }

  function Sized(s: State, cmd: Byte, n: nat): State {
    if n > MAX_PAYLOAD then Restarted(s)
    else if n > 0 then s.(rx := Payload(cmd, n, 0))
    else s.(rx := Check(cmd, 0, []))
  }

  function Checked(s: State, cmd: Byte, len: nat, sum: nat): State
    requires |s.buf| == MAX_PAYLOAD && len <= MAX_PAYLOAD
  {
    Restarted(if Value(Covered(cmd, s.buf[..len])) == sum then Announced(s, cmd, len) else s)
  }

  /** mdl_proto_rx_byte() */
  function Feed(s: State, b: Byte): (t: State)
    requires Sound(s)
    ensures Sound(t)
  {
    match s.rx
    case Magic(held) => Matched(s, held, b)
    case Cmd => s.(rx := Length(b, []))
    case Length(cmd, got) =>
      if |got| < 3 then s.(rx := Length(cmd, got + [b])) else Sized(s, cmd, FromLe32(got + [b]))
    case Payload(cmd, len, pos) =>
      s.(buf := s.buf[pos := b], rx := if pos + 1 == len then Check(cmd, len, []) else Payload(cmd, len, pos + 1))
    case Check(cmd, len, got) =>
      if |got| < 3 then s.(rx := Check(cmd, len, got + [b])) else Checked(s, cmd, len, FromLe32(got + [b]))
  }

  function FeedAll(s: State, bytes: seq<Byte>): (t: State)
    requires Sound(s)
    ensures Sound(t)
  {
    if bytes == [] then s else Feed(FeedAll(s, bytes[..|bytes| - 1]), bytes[|bytes| - 1])
  }

  lemma {:induction false} FeedConcat(s: State, a: seq<Byte>, b: seq<Byte>)
    requires Sound(s)
    ensures FeedAll(s, a + b) == FeedAll(FeedAll(s, a), b)
  {
    if b == [] {
      assert a + b == a;
    } else {
      assert (a + b)[..|a + b| - 1] == a + b[..|b| - 1];
      FeedConcat(s, a, b[..|b| - 1]);
    }
  }

  // ---- console text ----------------------------------------------------

  /** What has been typed so far, the held prefix included. */
  function Typed(s: State): seq<Byte>
    requires s.rx.Magic? && s.rx.held < 4
  {
    s.console + MAGIC[..s.rx.held]
  }

  lemma PlainPrefix(text: seq<Byte>, n: nat)
    requires Plain(text) && n <= |text|
    ensures Plain(text[..n])
  {
    forall i: nat | i < n
      ensures !MagicAt(text[..n], i)
    {
      assert !MagicAt(text, i);
    }
  }

  /** One more byte, unless it completes the magic. */
  lemma TextStep(t: State, b: Byte)
    requires Sound(t) && t.rx.Magic? && !(t.rx.held == 3 && b == MAGIC[3])
    ensures var u := Feed(t, b);
            u.rx.Magic? && u.rx.held <= t.rx.held + 1 && u == t.(rx := u.rx, console := u.console) && Typed(u) == Typed(t) + [b]
  {
    hide Checked, Sized;
    var h := t.rx.held;
    if b == MAGIC[h] {
      assert MAGIC[..h + 1] == MAGIC[..h] + [b];
    }
  }

  lemma HeldIsText(console: seq<Byte>, text: seq<Byte>, out: seq<Byte>, h: nat)
    requires h <= 4 && h <= |text| && out + MAGIC[..h] == console + text
    ensures text[|text| - h..] == MAGIC[..h]
  {
    assert (out + MAGIC[..h])[|out|..] == MAGIC[..h];
    assert (console + text)[|console| + |text| - h..] == text[|text| - h..];
  }

  /** Plain text reaches the console in order; at most three bytes are held back. */
  lemma {:induction false} TextPasses(s: State, text: seq<Byte>)
    requires Sound(s) && s.rx == Magic(0) && Plain(text)
    ensures var t := FeedAll(s, text);
            t.rx.Magic? && t.rx.held <= |text| && t == s.(rx := t.rx, console := t.console) && Typed(t) == s.console + text
  {
    hide Feed, Plain;
    if text == [] {
    } else {
      var n := |text| - 1;
      PlainPrefix(text, n);
      TextPasses(s, text[..n]);
      var t := FeedAll(s, text[..n]);
      HeldIsText(s.console, text[..n], t.console, t.rx.held);
      NeverCompleted(text, n, t.rx.held);
      TextStep(t, text[n]);
      assert text == text[..n] + [text[n]];
    }
  }

  lemma NeverCompleted(text: seq<Byte>, n: nat, h: nat)
    requires Plain(text) && n < |text| && h <= n && h < 4 && text[..n][n - h..] == MAGIC[..h]
    ensures !(h == 3 && text[n] == MAGIC[3])
  {
    if h == 3 {
      assert text[..n][n - 3..][0] == text[n - 3] && text[..n][n - 3..][1] == text[n - 2] && text[..n][n - 3..][2] == text[n - 1];
      assert !MagicAt(text, n - 3);
    }
  }

  /** The magic opens a frame wherever the matcher stood, and releases what it held. */
  lemma MagicOpens(s: State)
    requires Sound(s) && s.rx.Magic?
    ensures FeedAll(s, MAGIC) == s.(rx := Cmd, console := Typed(s))
  {
    hide Checked, Sized;
    assert MAGIC[..3][..2] == MAGIC[..2] && MAGIC[..2][..1] == MAGIC[..1] && MAGIC[..1][..0] == [];
    var s0 := FeedAll(s, MAGIC[..0]);
    assert s0 == s;
    FirstOfMagic(s);
    var s1 := FeedAll(s, MAGIC[..1]);
    assert s1 == s.(rx := Magic(1), console := Typed(s));
    var s2 := FeedAll(s, MAGIC[..2]);
    assert s2 == s1.(rx := Magic(2));
    var s3 := FeedAll(s, MAGIC[..3]);
    assert s3 == s1.(rx := Magic(3));
  }

  /** Only the first letter of the magic is an M, so the matcher starts over without loss. */
  lemma FirstOfMagic(s: State)
    requires Sound(s) && s.rx.Magic?
    ensures Feed(s, MAGIC[0]) == s.(rx := Magic(1), console := Typed(s))
  {
    hide Checked, Sized;
    if s.rx.held == 0 {
      assert MAGIC[..0] == [];
    }
  }

  // ---- frames ----------------------------------------------------------

  lemma FourFed(s: State, c: seq<Byte>)
    requires Sound(s) && |c| == 4
    ensures FeedAll(s, c) == Feed(Feed(Feed(Feed(s, c[0]), c[1]), c[2]), c[3])
  {
    hide Feed;
    assert c[..3][..2] == c[..2] && c[..2][..1] == c[..1] && c[..1][..0] == [];
    assert FeedAll(s, c[..0]) == s;
    assert FeedAll(s, c[..1]) == Feed(s, c[0]);
    assert FeedAll(s, c[..2]) == Feed(Feed(s, c[0]), c[1]);
    assert FeedAll(s, c[..3]) == Feed(Feed(Feed(s, c[0]), c[1]), c[2]);
  }

  lemma HeaderFed(s: State, cmd: Byte, n: nat)
    requires Sound(s) && s.rx.Cmd? && n < WORD_LIMIT
    ensures FeedAll(s, [cmd] + Le32(n)) == Sized(s, cmd, n)
  {
    hide Checked, Matched, Sized, Le32, FromLe32;
    var q := Le32(n);
    FeedConcat(s, [cmd], q);
    assert [cmd][..0] == [] && FeedAll(s, [cmd]) == s.(rx := Length(cmd, []));
    var s0 := s.(rx := Length(cmd, []));
    FourFed(s0, q);
    assert Feed(s0, q[0]) == s.(rx := Length(cmd, [q[0]]));
    assert Feed(s.(rx := Length(cmd, [q[0]])), q[1]) == s.(rx := Length(cmd, [q[0], q[1]]));
    assert Feed(s.(rx := Length(cmd, [q[0], q[1]])), q[2]) == s.(rx := Length(cmd, [q[0], q[1], q[2]]));
    assert [q[0], q[1], q[2]] + [q[3]] == q;
    LengthForgotten(s, Length(cmd, [q[0], q[1], q[2]]), cmd, n);
  }

  lemma LengthForgotten(s: State, rx: Rx, cmd: Byte, n: nat)
    ensures Sized(s.(rx := rx), cmd, n) == Sized(s, cmd, n)
  {
  }

  lemma {:induction false} PayloadFed(s: State, cmd: Byte, p: seq<Byte>, k: nat)
    requires Sound(s) && s.rx == Payload(cmd, |p|, 0) && k <= |p|
    ensures FeedAll(s, p[..k]) ==
              s.(buf := p[..k] + s.buf[k..], rx := if k == |p| then Check(cmd, |p|, []) else Payload(cmd, |p|, k))
  {
    hide Checked, Sized, Matched;
    if k == 0 {
      assert p[..0] + s.buf[0..] == s.buf;
    } else {
      PayloadFed(s, cmd, p, k - 1);
      assert p[..k][..k - 1] == p[..k - 1];
      assert (p[..k - 1] + s.buf[k - 1..])[k - 1 := p[k - 1]] == p[..k] + s.buf[k..];
    }
  }

  lemma SumByte(s: State, cmd: Byte, len: nat, got: seq<Byte>, b: Byte)
    requires Sound(s) && s.rx == Check(cmd, len, got)
    ensures Feed(s, b) == if |got| < 3 then s.(rx := Check(cmd, len, got + [b])) else Checked(s, cmd, len, FromLe32(got + [b]))
  {
    hide Checked, Sized, Matched, FromLe32;
  }

  lemma SumFed(s: State, cmd: Byte, len: nat, c: seq<Byte>)
    requires Sound(s) && s.rx == Check(cmd, len, []) && |c| == 4
    ensures FeedAll(s, c) == Checked(s, cmd, len, FromLe32(c))
  {
    hide Feed, Checked, FromLe32;
    FourFed(s, c);
    SumByte(s, cmd, len, [], c[0]);
    SumByte(Feed(s, c[0]), cmd, len, [c[0]], c[1]);
    SumByte(Feed(Feed(s, c[0]), c[1]), cmd, len, [c[0], c[1]], c[2]);
    SumByte(Feed(Feed(Feed(s, c[0]), c[1]), c[2]), cmd, len, [c[0], c[1], c[2]], c[3]);
    assert [c[0], c[1], c[2]] + [c[3]] == c;
    RxForgotten(s, Check(cmd, len, [c[0], c[1], c[2]]), cmd, len, FromLe32(c));
  }

  lemma RxForgotten(s: State, rx: Rx, cmd: Byte, len: nat, sum: nat)
    requires |s.buf| == MAX_PAYLOAD && len <= MAX_PAYLOAD
    ensures Checked(s.(rx := rx), cmd, len, sum) == Checked(s, cmd, len, sum)
  {
  }

  /** A frame as it travels, whatever its checksum; or a header announcing more than the buffer holds. */
  datatype Item = Packet(frame: Frame, sum: nat) | Oversize(cmd: Byte, len: nat)

  predicate Sendable(i: Item) {
    match i
    case Packet(f, sum) => |f.payload| <= 32 * 1024 && sum < WORD_LIMIT
    case Oversize(_, len) => 32 * 1024 < len < WORD_LIMIT
  }

  function ItemBytes(i: Item): seq<Byte>
    requires Sendable(i)
  {
    match i
    case Packet(f, sum) => MAGIC + Covered(f.cmd, f.payload) + Le32(sum)
    case Oversize(cmd, len) => MAGIC + ([cmd] + Le32(len))
  }

  predicate Intact(i: Item) {
    i.Packet? && |i.frame.payload| < WORD_LIMIT && i.sum == Value(Covered(i.frame.cmd, i.frame.payload))
  }

  function Delivered(i: Item): seq<Frame> {
    if Intact(i) then [i.frame] else []
  }

  /** Whatever the item, the parser is back in step after it and the console lost nothing. */
  ghost predicate Digested(s: State, i: Item, t: State)
    requires s.rx.Magic? && s.rx.held < 4
  {
    t.rx == Magic(0) && t.console == Typed(s) && t.log == s.log + Delivered(i)
  }

  lemma OversizeDigested(s: State, i: Item)
    requires Sound(s) && s.rx.Magic? && Sendable(i) && i.Oversize?
    ensures Digested(s, i, FeedAll(s, ItemBytes(i)))
  {
    hide Feed, Le32;
    FeedConcat(s, MAGIC, [i.cmd] + Le32(i.len));
    MagicOpens(s);
    HeaderFed(FeedAll(s, MAGIC), i.cmd, i.len);
  }

  lemma BodyFed(s: State, f: Frame)
    requires Sound(s) && s.rx.Cmd? && |f.payload| <= MAX_PAYLOAD
    ensures FeedAll(s, Covered(f.cmd, f.payload)) ==
              s.(rx := Check(f.cmd, |f.payload|, []), buf := f.payload + s.buf[|f.payload|..])
  {
    hide Feed, Le32;
    var n := |f.payload|;
    FeedConcat(s, [f.cmd] + Le32(n), f.payload);
    HeaderFed(s, f.cmd, n);
    var t := FeedAll(s, [f.cmd] + Le32(n));
    if n > 0 {
      PayloadFed(t, f.cmd, f.payload, n);
      assert f.payload[..n] == f.payload;
    } else {
      assert f.payload + s.buf[0..] == s.buf;
    }
  }

  lemma PacketDigested(s: State, i: Item)
    requires Sound(s) && s.rx.Magic? && Sendable(i) && i.Packet?
    ensures Digested(s, i, FeedAll(s, ItemBytes(i)))
  {
    hide Feed, Le32, Value, Covered, FromLe32;
    var f := i.frame;
    FeedConcat(s, MAGIC + Covered(f.cmd, f.payload), Le32(i.sum));
    FeedConcat(s, MAGIC, Covered(f.cmd, f.payload));
    MagicOpens(s);
    BodyFed(FeedAll(s, MAGIC), f);
    var t := FeedAll(s, MAGIC + Covered(f.cmd, f.payload));
    assert t.buf[..|f.payload|] == f.payload;
    SumFed(t, f.cmd, |f.payload|, Le32(i.sum));
  }

  // ---- the whole stream ------------------------------------------------

  datatype Stream = Rest(text: seq<Byte>) | Then(text: seq<Byte>, item: Item, rest: Stream)

  ghost predicate WellFormed(st: Stream) {
    Plain(st.text) && (st.Then? ==> Sendable(st.item) && WellFormed(st.rest))
  }

  function Sent(st: Stream): seq<Byte>
    requires WellFormed(st)
  {
    match st
    case Rest(text) => text
    case Then(text, item, rest) => text + (ItemBytes(item) + Sent(rest))
  }

  function Text(st: Stream): seq<Byte> {
    match st
    case Rest(text) => text
    case Then(text, _, rest) => text + Text(rest)
  }

  function Frames(st: Stream): seq<Frame> {
    match st
    case Rest(_) => []
    case Then(_, item, rest) => Delivered(item) + Frames(rest)
  }

  /**
   One stream, two readers: the console gets the text in order but for a held prefix of the
   magic, and exactly the intact frames are announced, in order.
   */
  lemma {:induction false} Demultiplexed(s: State, st: Stream)
    requires Sound(s) && s.rx == Magic(0) && WellFormed(st)
    ensures var t := FeedAll(s, Sent(st));
            t.rx.Magic? && Typed(t) == s.console + Text(st) && t.log == s.log + Frames(st)
    decreases st
  {
    hide Feed, Plain, Delivered, ItemBytes, Sound, Typed, Digested, Sendable;
    TextPasses(s, st.text);
    if st.Then? {
      var u := TextThenItem(s, st.text, st.item, Sent(st.rest));
      Demultiplexed(u, st.rest);
      Regrouped(s.console, st.text, Text(st.rest));
      Regrouped(s.log, Delivered(st.item), Frames(st.rest));
    }
  }

  lemma Regrouped<T>(a: seq<T>, b: seq<T>, c: seq<T>)
    ensures a + b + c == a + (b + c)
  {
  }

  /** One stretch of text and one item: where the parser stands when the rest arrives. */
  lemma TextThenItem(s: State, text: seq<Byte>, item: Item, rest: seq<Byte>) returns (u: State)
    requires Sound(s) && s.rx == Magic(0) && Plain(text) && Sendable(item)
    ensures Sound(u) && u.rx == Magic(0) && u.console == s.console + text && u.log == s.log + Delivered(item)
    ensures FeedAll(s, text + (ItemBytes(item) + rest)) == FeedAll(u, rest)
  {
    hide Feed, Plain, Delivered, ItemBytes, Sound, Sendable;
    TextPasses(s, text);
    var t := FeedAll(s, text);
    FeedConcat(s, text, ItemBytes(item) + rest);
    FeedConcat(t, ItemBytes(item), rest);
    ItemDigested(t, item);
    u := FeedAll(t, ItemBytes(item));
  }

  lemma ItemDigested(s: State, i: Item)
    requires Sound(s) && s.rx.Magic? && Sendable(i)
    ensures var t := FeedAll(s, ItemBytes(i));
            t.rx == Magic(0) && t.console == Typed(s) && t.log == s.log + Delivered(i)
  {
    hide Feed, ItemBytes;
    if i.Packet? {
      PacketDigested(s, i);
    } else {
      OversizeDigested(s, i);
    }
  }

  /** What build_frame() made of a command and a payload is delivered. */
  lemma BuiltIsIntact(f: Frame)
    requires |f.payload| <= MAX_PAYLOAD
    ensures var i := Packet(f, Value(Covered(f.cmd, f.payload)));
            Sendable(i) && ItemBytes(i) == BuildFrame(f) && Delivered(i) == [f]
  {
  }

  /** What arrives with up to four consecutive bytes of command or payload changed is not. */
  lemma DamagedIsDropped(f: Frame, g: Frame, before: seq<Byte>, x: seq<Byte>, y: seq<Byte>, after: seq<Byte>)
    requires |f.payload| == |g.payload| <= MAX_PAYLOAD && |x| == |y| <= 4 && x != y
    requires Covered(f.cmd, f.payload) == before + x + after && Covered(g.cmd, g.payload) == before + y + after
    ensures Delivered(Packet(g, Value(Covered(f.cmd, f.payload)))) == []
  {
    hide Covered, Value;
    FourByteDamageDetected(before, x, y, after);
  }

  // ---- taking frames ---------------------------------------------------

  datatype Step = Arrives(b: Byte) | TakeFrame

  /** The byte would destroy what is pending: it lands in the shared buffer or replaces the announcement. */
  predicate Overruns(s: State, b: Byte)
    requires Sound(s)
  {
    s.ready && (s.rx.Payload? || Feed(s, b).log != s.log)
  }

  /** mdl_proto_take_frame() */
  function Pending(s: State): seq<Frame>
    requires Sound(s)
  {
    if s.ready then [Frame(s.readyCmd, s.buf[..s.readyLen])] else []
  }

  function Run(s: State, steps: seq<Step>): (r: (State, seq<Frame>))
    requires Sound(s)
    ensures Sound(r.0)
  {
    if steps == [] then (s, [])
    else
      var (t, taken) := Run(s, steps[..|steps| - 1]);
      match steps[|steps| - 1]
      case Arrives(b) => (Feed(t, b), taken)
      case TakeFrame => (t.(ready := false), taken + Pending(t))
  }

  /** Every frame is taken before the next one's bytes overrun it. */
  ghost predicate Prompt(s: State, steps: seq<Step>)
    requires Sound(s)
  {
    forall n | 0 <= n < |steps| && steps[n].Arrives? :: !Overruns(Run(s, steps[..n]).0, steps[n].b)
  }

  function Arrived(steps: seq<Step>): seq<Byte> {
    if steps == [] then []
    else Arrived(steps[..|steps| - 1]) + (if steps[|steps| - 1].Arrives? then [steps[|steps| - 1].b] else [])
  }

  /** Taking frames changes nothing else about the parser. */
  ghost predicate SameButReady(s: State, t: State) {
    s == t.(ready := s.ready)
  }

  lemma CheckIgnoresReady(s: State, t: State, cmd: Byte, len: nat, sum: nat)
    requires Sound(s) && Sound(t) && SameButReady(s, t) && len <= MAX_PAYLOAD
    ensures SameButReady(Checked(s, cmd, len, sum), Checked(t, cmd, len, sum))
  {
    hide Value, Covered;
  }

  lemma FeedIgnoresReady(s: State, t: State, b: Byte)
    requires Sound(s) && Sound(t) && SameButReady(s, t)
    ensures SameButReady(Feed(s, b), Feed(t, b))
  {
    hide FromLe32, Checked;
    if s.rx.Check? {
      CheckIgnoresReady(s, t, s.rx.cmd, s.rx.len, FromLe32(if |s.rx.got| == 3 then s.rx.got + [b] else [0, 0, 0, 0]));
    }
  }

  lemma PendingKept(s: State, b: Byte)
    requires Sound(s) && !Overruns(s, b)
    ensures Pending(s) <= Pending(Feed(s, b)) || s.ready
    ensures Feed(s, b).log == s.log ==> Pending(Feed(s, b)) == Pending(s)
    ensures Feed(s, b).log != s.log ==> !s.ready && exists f :: Feed(s, b).log == s.log + [f] && Pending(Feed(s, b)) == [f]
  {
    hide Value, FromLe32;
  }

  /** Frames taken, with the one still pending, are the frames announced. */
  lemma {:induction false} TakenAreAnnounced(s: State, steps: seq<Step>)
    requires Sound(s) && !s.ready && s.log == [] && Prompt(s, steps)
    ensures var (t, taken) := Run(s, steps);
            taken + Pending(t) == t.log && SameButReady(t, FeedAll(s, Arrived(steps)))
  {
    hide Feed;
    if steps == [] {
    } else {
      var n := |steps| - 1;
      forall k | 0 <= k < n && steps[..n][k].Arrives?
        ensures !Overruns(Run(s, steps[..n][..k]).0, steps[..n][k].b)
      {
        assert steps[..n][..k] == steps[..k];
      }
      TakenAreAnnounced(s, steps[..n]);
      var (t, taken) := Run(s, steps[..n]);
      var u := FeedAll(s, Arrived(steps[..n]));
      match steps[n]
      case Arrives(b) =>
        FeedIgnoresReady(t, u, b);
        PendingKept(t, b);
        assert Arrived(steps)[..|Arrived(steps)| - 1] == Arrived(steps[..n]);
      case TakeFrame =>
        assert Arrived(steps) == Arrived(steps[..n]);
    }
  }

  /**
   The link as a whole, from reset: however text, good, damaged and oversized frames follow
   one another and however the taking is interleaved, a supervisor that keeps up takes
   exactly the intact frames and the console receives exactly the text.
   */
  lemma LinkDelivers(s: State, st: Stream, steps: seq<Step>)
    requires Sound(s) && s.rx == Magic(0) && !s.ready && s.log == [] && s.console == []
    requires WellFormed(st) && Arrived(steps) == Sent(st) && Prompt(s, steps)
    ensures var (t, taken) := Run(s, steps);
            taken + Pending(t) == Frames(st) && t.rx.Magic? && Typed(t) == Text(st)
  {
    hide Feed, Prompt, Run, Sent, Text, Frames;
    TakenAreAnnounced(s, steps);
    Demultiplexed(s, st);
  }
}
