/**
 The receive ring of mdl/host/host_uart.c. The interrupt handler runs whole, between any two
 of the steps the read loop is cut into: test the indices, copy a byte, advance the tail.
 Neither side locks; each writes its own index only.
 */
module UartRing {
  import opened Bytes

  /** Where the read loop stands. */
  datatype Pc = Outside | Testing | Copying | Advancing

  lemma NoMultiple(d: int, size: int)
    requires 0 < size
    ensures -size < d * size < size ==> d == 0
  {
    if d > 0 {
      assert d * size >= size;
    } else if d < 0 {
      assert d * size <= -size;
    }
  }

  lemma Quotient(x: int, q: int, r: nat, size: nat)
    requires r < size && x == q * size + r
    ensures x / size == q && x % size == r
  {
    var d: int := x / size - q;
    assert d * size == r - x % size;
    NoMultiple(d, size);
  }

  /** Where the `n`-th byte goes. */
  function Index(n: nat, size: nat): (i: nat)
    requires 1 < size
    ensures i < size
  {
    n % size
  }

  lemma NextIndex(n: nat, size: nat)
    requires 1 < size
    ensures (Index(n, size) + 1) % size == Index(n + 1, size)
    ensures Index(n + 1, size) == if Index(n, size) + 1 == size then 0 else Index(n, size) + 1
  {
    var q, r := n / size, n % size;
    if r + 1 == size {
      assert n + 1 == (q + 1) * size;
      Quotient(n + 1, q + 1, 0, size);
      Quotient(r + 1, 1, 0, size);
    } else {
      Quotient(n + 1, q, r + 1, size);
      Quotient(r + 1, 0, r + 1, size);
    }
  }

  /** Two counts less than a ring apart: how far their indices are. */
  lemma RingIndex(a: nat, n: nat, size: nat)
    requires 1 < size && a <= n < a + size
    ensures Index(n, size) - Index(a, size) == n - a || Index(n, size) - Index(a, size) == n - a - size
    ensures Index(n, size) == Index(a, size) <==> n == a
    ensures Index(n + 1, size) == Index(a, size) <==> n == a + size - 1
  {
    var q, r := a / size, a % size;
    if r + (n - a) < size {
      Quotient(n, q, r + (n - a), size);
    } else {
      assert (q + 1) * size == q * size + size;
      Quotient(n, q + 1, r + (n - a) - size, size);
    }
    NextIndex(n, size);
  }

  /** The index a new byte goes to holds none that is still waiting. */
  lemma SlotIsFree(a: nat, n: nat, size: nat)
    requires 1 < size && a <= n < a + size
    ensures forall k: nat :: a <= k < n ==> Index(k, size) != Index(n, size)
  {
    hide Index;
    forall k: nat | a <= k < n
      ensures Index(k, size) != Index(n, size)
    {
      RingIndex(k, n, size);
    }
  }

  /** uint16_t operands subtracted as 32-bit words: right for a ring size that divides 2^32. */
  function Distance(head: nat, tail: nat, size: nat): nat
    requires 1 < size
  {
    (head - tail) % WORD_LIMIT % size
  }

  lemma DistanceMeans(a: nat, n: nat, size: nat)
    requires 1 < size < WORD_LIMIT && WORD_LIMIT % size == 0 && a <= n < a + size
    ensures Distance(Index(n, size), Index(a, size), size) == n - a
  {
    RingIndex(a, n, size);
    var d := n % size - a % size;
    var k := WORD_LIMIT / size;
    assert WORD_LIMIT == k * size;
    if d < 0 {
      assert d % WORD_LIMIT == WORD_LIMIT + d;
      assert (k - 1) * size == WORD_LIMIT - size;
      Quotient(WORD_LIMIT + d, k - 1, size + d, size);
    } else {
      Quotient(d, 0, d, size);
    }
  }

  /** One scheduling choice: a byte arrives, or the reader makes its next step. */
  datatype Choice = Arrives(b: Byte) | ReaderStep(size: nat)

  /** Interrupt and reader as they are meant: a queue of the bytes accepted and not yet advanced over. */
  datatype Meaning = Meaning(accepted: seq<Byte>, advanced: nat, dropped: nat, pc: Pc, maxlen: nat, out: seq<Byte>, delivered: seq<Byte>) {
    predicate Sane() {
      advanced <= |accepted| && (pc.Copying? || pc.Advancing? ==> advanced < |accepted|)
    }
  }

  /** What a choice does, with a ring of this size. */
  function Chosen(m: Meaning, size: nat, c: Choice): (n: Meaning)
    requires m.Sane()
    ensures n.Sane()
  {
    match c
    case Arrives(b) =>
      if |m.accepted| - m.advanced == size - 1 then m.(dropped := (m.dropped + 1) % WORD_LIMIT) else m.(accepted := m.accepted + [b])
    case ReaderStep(room) =>
      match m.pc
      case Outside => m.(pc := Testing, maxlen := room, out := [])
      case Testing => m.(pc := if |m.out| < m.maxlen && m.advanced < |m.accepted| then Copying else Outside)
      case Copying => m.(pc := Advancing, out := m.out + [m.accepted[m.advanced]], delivered := m.delivered + [m.accepted[m.advanced]])
      case Advancing => m.(pc := Testing, advanced := m.advanced + 1)
  }

  function Scheduled(m: Meaning, size: nat, schedule: seq<Choice>): (n: Meaning)
    requires m.Sane()
    ensures n.Sane()
  {
    if schedule == [] then m else Chosen(Scheduled(m, size, schedule[..|schedule| - 1]), size, schedule[|schedule| - 1])
  }

  class Uart {
    const ring: array<Byte>
    var head: nat
    var tail: nat
    var dropped: nat

    // The read loop's locals.
    var pc: Pc
    var maxlen: nat
    var out: seq<Byte>

    /** Bytes put into the ring, in order. */
    ghost var accepted: seq<Byte>
    /** How often the tail has moved. */
    ghost var advanced: nat
    /** Bytes handed out by every read so far, this one included. */
    ghost var delivered: seq<Byte>

    ghost predicate Valid()
      reads this, ring
    {
      && dropped < WORD_LIMIT
      && 1 < ring.Length < WORD_LIMIT && WORD_LIMIT % ring.Length == 0
      && advanced <= |accepted| < advanced + ring.Length
      && head == Index(|accepted|, ring.Length) && tail == Index(advanced, ring.Length)
      && (forall k: nat :: advanced <= k < |accepted| ==> ring[Index(k, ring.Length)] == accepted[k])
      && (pc.Copying? || pc.Advancing? ==> advanced < |accepted| && |out| < maxlen + (if pc.Advancing? then 1 else 0))
      && |out| <= maxlen
      && delivered == accepted[..advanced] + (if pc.Advancing? then [accepted[advanced]] else [])
      && |out| <= |delivered| && out == delivered[|delivered| - |out|..]
    }

    ghost function Abs(): (m: Meaning)
      requires Valid()
      reads this, ring
      ensures m.Sane()
    {
      Meaning(accepted, advanced, dropped, pc, maxlen, out, delivered)
    }

    /** A ring of UART_RX_RING bytes. */
    constructor (size: nat)
      requires 1 < size < WORD_LIMIT && WORD_LIMIT % size == 0
      ensures Valid() && ring.Length == size && accepted == [] && delivered == [] && pc == Outside && dropped == 0 && fresh(ring)
    {
      ring := new Byte[size](_ => 0);
      head, tail, dropped := 0, 0, 0;
      pc, maxlen, out := Outside, 0, [];
      accepted, advanced, delivered := [], 0, [];
    }

    /** ring_used() */
    function RingUsed(): (n: nat)
      requires Valid()
      reads this, ring
      ensures n == |accepted| - advanced
    {
      DistanceMeans(advanced, |accepted|, ring.Length);
      Distance(head, tail, ring.Length)
    }

    /** The receive branch of uart_isr(). */
    method Receive(b: Byte)
      requires Valid()
      modifies this`head, this`dropped, this`accepted, ring
      ensures Valid()
      ensures if old(RingUsed()) == ring.Length - 1 then accepted == old(accepted) && dropped == (old(dropped) + 1) % WORD_LIMIT
              else accepted == old(accepted) + [b] && dropped == old(dropped)
    {
      hide Index;
      RingIndex(advanced, |accepted|, ring.Length);
      NextIndex(|accepted|, ring.Length);
      var next := (head + 1) % ring.Length;
      if next == tail {
        dropped := (dropped + 1) % WORD_LIMIT;
      } else {
        SlotIsFree(advanced, |accepted|, ring.Length);
        ring[head] := b;
        head := next;
        accepted := accepted + [b];
      }
    }

    /** Entering host_uart_read_impl() with a buffer of this size. */
    method StartRead(size: nat)
      requires Valid() && pc == Outside
      modifies this`pc, this`maxlen, this`out
      ensures Valid() && pc == Testing && out == [] && maxlen == size
    {
      pc, maxlen, out := Testing, size, [];
    }

    /** The loop condition, both indices read; leaving the loop ends the call. */
    method Test()
      requires Valid() && pc == Testing
      modifies this`pc
      ensures Valid() && pc == if |out| < maxlen && old(RingUsed()) != 0 then Copying else Outside
    {
      hide Index;
      RingIndex(advanced, |accepted|, ring.Length);
      pc := if |out| < maxlen && tail != head then Copying else Outside;
    }

    /** out[n++] = ring[tail] */
    method CopyByte()
      requires Valid() && pc == Copying
      modifies this`pc, this`out, this`delivered
      ensures Valid() && pc == Advancing && delivered == old(delivered) + [accepted[advanced]] && out == old(out) + [accepted[advanced]]
    {
      hide Index;
      assert ring[tail] == accepted[advanced];
      out := out + [ring[tail]];
      delivered := delivered + [accepted[advanced]];
      pc := Advancing;
    }

    /** tail = (tail + 1) % UART_RX_RING */
    method Advance()
      requires Valid() && pc == Advancing
      modifies this`pc, this`tail, this`advanced
      ensures Valid() && pc == Testing && advanced == old(advanced) + 1
    {
      hide Index;
      NextIndex(advanced, ring.Length);
      assert accepted[..advanced] + [accepted[advanced]] == accepted[..advanced + 1];
      tail := (tail + 1) % ring.Length;
      advanced := advanced + 1;
      pc := Testing;
    }

    lemma DroppedIsWord()
      requires Valid()
      ensures dropped % WORD_LIMIT == dropped
    {
    }

    /** Between calls everything taken so far is what was delivered. */
    lemma ReadsArePrefix()
      requires Valid()
      ensures delivered <= accepted && (pc == Outside ==> |delivered| + RingUsed() == |accepted|)
    {
      if pc.Advancing? {
        assert accepted[..advanced] + [accepted[advanced]] == accepted[..advanced + 1];
      }
    }
  }

  function Arrivals(schedule: seq<Choice>): nat {
    if schedule == [] then 0
    else Arrivals(schedule[..|schedule| - 1]) + (if schedule[|schedule| - 1].Arrives? then 1 else 0)
  }

  lemma OneMoreLoss(n: nat)
    ensures (n % WORD_LIMIT + 1) % WORD_LIMIT == (n + 1) % WORD_LIMIT
  {
  }

  method Choose(u: Uart, c: Choice) returns (ghost lost: nat)
    requires u.Valid()
    modifies u, u.ring
    ensures u.Valid() && u.Abs() == Chosen(old(u.Abs()), u.ring.Length, c)
    ensures |u.accepted| + lost == |old(u.accepted)| + (if c.Arrives? then 1 else 0)
    ensures lost <= 1 && u.dropped == if lost == 0 then old(u.dropped) else (old(u.dropped) + 1) % WORD_LIMIT
  {
    hide Index, Distance;
    lost := 0;
    match c
    case Arrives(b) =>
      lost := if u.RingUsed() == u.ring.Length - 1 then 1 else 0;
      u.Receive(b);
    case ReaderStep(size) =>
      match u.pc
      case Outside => u.StartRead(size);
      case Testing => u.Test();
      case Copying => u.CopyByte();
      case Advancing => u.Advance();
  }

  /**
   Any interleaving at all, from power-on or any later state: the ring does what it means;
   what the reads return, put end to end, is a prefix of the bytes accepted; and every
   arrival was accepted or counted as dropped.
   */
  method Interleave(u: Uart, schedule: seq<Choice>) returns (ghost losses: nat)
    requires u.Valid()
    modifies u, u.ring
    ensures u.Valid() && u.Abs() == Scheduled(old(u.Abs()), u.ring.Length, schedule)
    ensures u.delivered <= u.accepted
    ensures |u.accepted| + losses == |old(u.accepted)| + Arrivals(schedule) && u.dropped == (old(u.dropped) + losses) % WORD_LIMIT
  {
    hide Uart.Valid, Chosen, Uart.Abs;
    losses := 0;
    u.DroppedIsWord();
    for n := 0 to |schedule|
      invariant u.Valid() && u.Abs() == Scheduled(old(u.Abs()), u.ring.Length, schedule[..n])
      invariant |u.accepted| + losses == |old(u.accepted)| + Arrivals(schedule[..n]) && u.dropped == (old(u.dropped) + losses) % WORD_LIMIT
    {
      assert schedule[..n + 1][..n] == schedule[..n];
      ghost var lost := Choose(u, schedule[n]);
      OneMoreLoss(old(u.dropped) + losses);
      losses := losses + lost;
    }
    assert schedule[..|schedule|] == schedule;
    u.ReadsArePrefix();
  }
}
