/**
 mdl/host/host_events.c: one slot's event queue, a ring of records posted by interrupts and
 by the console and taken by the module. Every method refines a step of EventTrace.
 */
module Events {
  import opened EventTrace

  const WORD: nat := 0x1_0000_0000

  lemma FindSummary(gs: seq<Group>, k: nat, key: Key)
    requires forall j :: 0 <= j < k && j < |gs| ==> KeyOf(gs[j][0]) != key
    requires k == |gs| || (k < |gs| && KeyOf(gs[k][0]) == key)
    ensures Find(gs, key) == k
  {
  }

  /** A merge touches payload and count only; the tick stays the first post's. */
  lemma MergedSummary(g: Group, p: Post)
    ensures var e := Summary(g);
            Summary(g + [p]) == Event(e.source, e.id, if e.coalesced < SATURATED then e.coalesced + 1 else e.coalesced, p.payload, e.tick, e.cycles)
  {
  }

  /** Where a ring of `max` records keeps its `k`-th oldest. */
  function SlotOf(head: nat, k: nat, max: nat): (slot: nat)
    requires head < max && k <= max
    ensures slot < max
  {
    if head + k < max then head + k else head + k - max
  }

  lemma NextIndex(i: nat, max: nat)
    requires i < max
    ensures (i + 1) % max == if i + 1 == max then 0 else i + 1
  {
  }

  lemma RingStep(head: nat, k: nat, max: nat)
    requires head < max && k < max
    ensures SlotOf(head, k + 1, max) == (SlotOf(head, k, max) + 1) % max
    ensures (head + 1) % max < max
    ensures forall j :: 0 < j <= max ==> SlotOf((head + 1) % max, j - 1, max) == SlotOf(head, j, max)
  {
    NextIndex(head, max);
    NextIndex(SlotOf(head, k, max), max);
  }

  /** The three counters, as far as 32 bits can tell. */
  ghost predicate Counted(t: Trace, delivered: nat, lost: nat, coalesced: nat) {
    && delivered == |t.taken| % WORD
    && lost == |t.lost| % WORD
    && coalesced == (Merged(t.taken) + Merged(t.queue)) % WORD
  }

  lemma Increment(n: int)
    ensures (n + 1) % WORD == (n % WORD + 1) % WORD
  {
  }

  lemma CountedAppend(t: Trace, u: Trace, p: Post, d: nat, l: nat, c: nat)
    requires Counted(t, d, l, c) && u == t.(queue := t.queue + [[p]], accepted := t.accepted + [p])
    ensures Counted(u, d, l, c)
  {
    TotalJoin(t.queue, [[p]]);
    TotalOne([p]);
  }

  lemma CountedMerge(t: Trace, u: Trace, k: nat, p: Post, d: nat, l: nat, c: nat)
    requires Counted(t, d, l, c) && k < |t.queue|
    requires u == t.(queue := t.queue[k := t.queue[k] + [p]], accepted := t.accepted + [p])
    ensures Counted(u, d, l, (c + 1) % WORD)
  {
    TotalSet(t.queue, k, t.queue[k] + [p]);
    Increment(Merged(t.taken) + Merged(t.queue));
  }

  lemma CountedTake(t: Trace, d: nat, l: nat, c: nat)
    requires Counted(t, d, l, c) && t.queue != []
    ensures Counted(Drained(t), (d + 1) % WORD, l, c)
  {
    assert t.queue == [t.queue[0]] + t.queue[1..];
    TotalJoin([t.queue[0]], t.queue[1..]);
    TotalJoin(t.taken, [t.queue[0]]);
    TotalOne(t.queue[0]);
    Increment(|t.taken|);
  }

  lemma CountedLoss(t: Trace, p: Post, d: nat, l: nat, c: nat)
    requires Counted(t, d, l, c)
    ensures Counted(t.(lost := t.lost + [p]), d, (l + 1) % WORD, c)
  {
    Increment(|t.lost|);
  }

  /**
   The record names the source and id of every post of the group, carries the latest payload
   and the first time, and counts the posts up to 65535.
   */
  ghost predicate Reports(e: Event, g: Group) {
    && (forall p <- g :: p.source == e.source && p.id == e.id)
    && e.payload == g[|g| - 1].payload && e.tick == g[0].now && e.cycles == g[0].cycles
    && e.coalesced == if |g| <= 65535 then |g| else 65535
  }

  lemma SummaryReports(g: Group)
    requires Sound(g)
    ensures Reports(Summary(g), g)
  {
  }

  class EventQueue {
    const q: array<Event>
    var head: nat
    var tail: nat
    var count: nat
    var depth: nat
    var delivered: nat
    var lost: nat
    var coalesced: nat
    /** Everything since the last reset. */
    ghost var trace: Trace

    ghost predicate Ring()
      reads this
    {
      && 0 < depth <= q.Length
      && head < q.Length && count <= depth && tail == SlotOf(head, count, q.Length)
    }

    /** The ring holds the summaries of the queued groups, oldest first. */
    ghost predicate Valid()
      reads this, q
    {
      && Ring()
      && Ok(trace, depth)
      && |trace.queue| == count
      && (forall k :: 0 <= k < count ==> q[SlotOf(head, k, q.Length)] == Summary(trace.queue[k]))
      && Counted(trace, delivered, lost, coalesced)
    }

    /** A ring of MDL_EVT_QUEUE_MAX records. */
    constructor (max: nat)
      requires 0 < max
      ensures Valid() && trace == START && depth == q.Length == max && fresh(q)
    {
      q := new Event[max](_ => Event(0, 0, 0, 0, 0, 0));
      head, tail, count, depth := 0, 0, 0, max;
      delivered, lost, coalesced := 0, 0, 0;
      trace := START;
    }

    /** mdl_events_reset(): a depth of 0 or beyond the ring means the whole ring. */
    method Reset(wanted: nat)
      requires 0 < q.Length
      modifies this
      ensures Valid() && trace == START && depth == if wanted == 0 || wanted > q.Length then q.Length else wanted
    {
      head, tail, count := 0, 0, 0;
      delivered, lost, coalesced := 0, 0, 0;
      depth := if wanted == 0 || wanted > q.Length then q.Length else wanted;
      trace := START;
    }

    /** What disarming a slot does to its queue: nothing is left to take, the counters stay until the next reset. */
    method Discard()
      modifies this`head, this`tail, this`count
      ensures head == tail == count == 0
    {
      head, tail, count := 0, 0, 0;
    }

    /** Writing the record at the tail. */
    method Append(e: Event, ghost p: Post)
      requires Valid() && count < depth && e == Summary([p])
      requires p.source == CONSOLE || forall g <- trace.queue :: KeyOf(g[0]) != KeyOf(p)
      modifies this`tail, this`count, this`trace, q
      ensures Valid() && trace == old(trace).(queue := old(trace).queue + [[p]], accepted := old(trace).accepted + [p])
    {
      hide Merged, Total, Counted;
      q[tail] := e;
      RingStep(head, count, q.Length);
      tail := (tail + 1) % q.Length;
      count := count + 1;
      trace := trace.(queue := trace.queue + [[p]], accepted := trace.accepted + [p]);
      CountedAppend(old(trace), trace, p, delivered, lost, coalesced);
      assert Sound([p]);
    }

    /** post_from_isr(), for a slot that owns the source. */
    method PostFromIsr(p: Post)
      requires Valid() && p.source != CONSOLE
      modifies this`tail, this`count, this`lost, this`coalesced, this`trace, q
      ensures Valid() && trace == Posted(old(trace), depth, p)
      ensures Taken(old(trace), depth, p, trace)
    {
      PostedIsTaken(trace, depth, p);
      hide Merged, Total, Counted, Ok, Find, Taken, Posted;
      var n, i := 0, head;
      while n < count
        invariant Valid() && unchanged(this) && unchanged(q)
        invariant n <= count && i == SlotOf(head, n, q.Length)
        invariant forall j :: 0 <= j < n ==> KeyOf(trace.queue[j][0]) != KeyOf(p)
      {
        assert q[i] == Summary(trace.queue[n]);
        if q[i].source == p.source && q[i].id == p.id {
          MergeAt(n, i, p);
          return;
        }
        RingStep(head, n, q.Length);
        n, i := n + 1, (i + 1) % q.Length;
      }
      PostNew(p);
    }

    /** The rest of post_from_isr(), for a source and id that no record has. */
    method PostNew(p: Post)
      requires Valid() && p.source != CONSOLE && forall j :: 0 <= j < count ==> KeyOf(trace.queue[j][0]) != KeyOf(p)
      modifies this`tail, this`count, this`lost, this`trace, q
      ensures Valid() && trace == Posted(old(trace), depth, p)
    {
      hide Merged, Total, Counted, Ok, Find;
      FindSummary(trace.queue, count, KeyOf(p));
      if count >= depth {
        CountedLoss(trace, p, delivered, lost, coalesced);
        OkLoss(trace, depth, p);
        lost := (lost + 1) % WORD;
        trace := trace.(lost := trace.lost + [p]);
        return;
      }
      Append(Event(p.source, p.id, 1, p.payload, p.now, p.cycles), p);
    }

    /** The merge branch of post_from_isr(). */
    method MergeAt(n: nat, i: nat, p: Post)
      requires Valid() && p.source != CONSOLE && n < count && i == SlotOf(head, n, q.Length) && KeyOf(trace.queue[n][0]) == KeyOf(p)
      requires forall j :: 0 <= j < n ==> KeyOf(trace.queue[j][0]) != KeyOf(p)
      modifies this`coalesced, this`trace, q
      ensures Valid() && trace == Posted(old(trace), depth, p)
    {
      hide Merged, Total, Counted, Ok, Find;
      FindSummary(trace.queue, n, KeyOf(p));
      PostedOk(trace, depth, p);
      MergedSummary(trace.queue[n], p);
      q[i] := q[i].(payload := p.payload);
      if q[i].coalesced < SATURATED {
        q[i] := q[i].(coalesced := q[i].coalesced + 1);
      }
      coalesced := (coalesced + 1) % WORD;
      trace := Posted(trace, depth, p);
      CountedMerge(old(trace), trace, n, p, delivered, lost, old(coalesced));
    }

    /** mdl_events_take(), the caller having been identified as this slot. */
    method TakeOne() returns (got: bool, e: Event)
      requires Valid()
      modifies this`head, this`count, this`delivered, this`trace
      ensures Valid() && trace == Drained(old(trace))
      ensures got == (old(trace).queue != []) && (got ==> e == Summary(old(trace).queue[0]))
      ensures got ==> Reports(e, old(trace).queue[0])
    {
      hide Merged, Total, Counted;
      got, e := false, Event(0, 0, 0, 0, 0, 0);
      if count > 0 {
        SummaryReports(trace.queue[0]);
        e := q[head];
        assert SlotOf(head, 0, q.Length) == head;
        RingStep(head, 0, q.Length);
        head := (head + 1) % q.Length;
        count := count - 1;
        delivered := (delivered + 1) % WORD;
        CountedTake(trace, old(delivered), lost, coalesced);
        trace := Drained(trace);
        got := true;
      }
    }

    /** mdl_events_post_console(): refused, not lost, when the queue is full. */
    method PostConsole(now: nat, cycles: nat) returns (ok: bool)
      requires Valid()
      modifies this`tail, this`count, this`trace, q
      ensures Valid() && trace == Commanded(old(trace), depth, now, cycles) && ok == (|old(trace).queue| < depth)
    {
      hide Merged, Total, Counted, Ok;
      ok := false;
      if count < depth {
        Append(Event(CONSOLE, 0, 1, 0, now, cycles), Post(CONSOLE, 0, 0, now, cycles));
        ok := true;
      }
    }
  }

  lemma OkLoss(t: Trace, depth: nat, p: Post)
    requires Ok(t, depth)
    ensures Ok(t.(lost := t.lost + [p]), depth)
  {
  }

  /** Any run of the ring since reset is the run of its specification. */
  method Drive(e: EventQueue, steps: seq<Step>)
    requires e.Valid() && e.trace == START && forall s <- steps :: Honest(s)
    modifies e`head, e`tail, e`count, e`delivered, e`lost, e`coalesced, e`trace, e.q
    ensures e.Valid() && e.trace == Run(e.depth, steps)
  {
    hide Merged, Total, Counted, Ok, Posted, Commanded, Drained;
    for n := 0 to |steps|
      invariant e.Valid() && e.trace == Run(e.depth, steps[..n])
    {
      assert steps[..n + 1][..n] == steps[..n];
      assert Honest(steps[n]);
      match steps[n]
      case Interrupt(p) =>
        e.PostFromIsr(p);
      case Command(now, cycles) =>
        var _ := e.PostConsole(now, cycles);
      case Take =>
        var _, _ := e.TakeOne();
    }
    assert steps[..|steps|] == steps;
  }

  lemma AddsUp(d: int, c: int, m: int, l: int)
    ensures (d % WORD + c + m % WORD + l % WORD) % WORD == (d + c + m + l) % WORD
  {
    var x, y, z := d / WORD, m / WORD, l / WORD;
    assert d % WORD + c + m % WORD + l % WORD == (d + c + m + l) - WORD * (x + y + z);
    WholeWords(d + c + m + l, x + y + z);
  }

  lemma WholeWords(a: int, k: int)
    ensures (a - WORD * k) % WORD == a % WORD
  {
    assert a - WORD * k == WORD * (a / WORD - k) + a % WORD;
  }

  /** The counters a status reader sees account for every post since reset, modulo 2^32. */
  lemma CountersConserve(e: EventQueue, steps: seq<Step>)
    requires e.Valid() && (forall s <- steps :: Honest(s)) && e.trace == Run(e.depth, steps)
    ensures (e.delivered + e.count + e.coalesced + e.lost) % WORD == Offered(steps, e.depth) % WORD
  {
    hide Merged, Total, Ok, Run, Offered;
    Conservation(e.depth, steps);
    AddsUp(|e.trace.taken|, e.count, Merged(e.trace.taken) + Merged(e.trace.queue), |e.trace.lost|);
  }
}
