/**
 The per-slot watchdog of mdl_supervisor_run(): tick arithmetic modulo 2^32 decides who is
 parked inside the host and who is presumed hung.
 */
module Watchdog {
  const TICKS: nat := 0x1_0000_0000
  const HALF: nat := 0x8000_0000
  const PARKED_FOREVER: nat := 0xFFFF_FFFF
  /** MDL_WATCHDOG_TIMEOUT_MS; one tick is one millisecond. */
  const TIMEOUT: nat := 3000

  datatype Timer = Timer(lastActive: nat, parkedUntil: nat)

  /** uint32_t subtraction. */
  function Since(now: nat, then_: nat): nat {
    (now - then_) % TICKS
  }

  predicate Parked(t: Timer, now: nat) {
    t.parkedUntil == PARKED_FOREVER || (t.parkedUntil != 0 && Since(now, t.parkedUntil) >= HALF)
  }

  /** The watchdog would take a running module with these timers out. */
  predicate Hung(t: Timer, now: nat) {
    !Parked(t, now) && Since(now, t.lastActive) > TIMEOUT
  }

  /** What host_delay_ms() records when a module last active at `active` goes to sleep at `start`. */
  function Asleep(active: nat, start: nat, ms: nat): Timer {
    Timer(active % TICKS, (start + ms + 1) % TICKS)
  }

  lemma SinceStart(start: nat, elapsed: nat)
    requires elapsed < TICKS
    ensures Since((start + elapsed) % TICKS, start % TICKS) == elapsed
  {
    var a, b := (start + elapsed) / TICKS, start / TICKS;
    assert (start + elapsed) % TICKS - start % TICKS == elapsed - TICKS * (a - b);
    assert a - b == 0 || a - b == 1;
  }

  lemma Backwards(a: nat, b: nat, left: nat)
    requires a < TICKS && b < TICKS && 0 < left < TICKS && Since(b, a) == left
    ensures Since(a, b) == TICKS - left
  {
    if a <= b {
      assert b - a == left;
      assert (a - b + TICKS) % TICKS == TICKS - left;
    } else {
      assert (b - a) % TICKS == b - a + TICKS;
      assert a - b == TICKS - left;
    }
  }

  lemma SinceDeadline(start: nat, ms: nat, elapsed: nat)
    requires elapsed <= ms < TICKS
    ensures Since((start + elapsed) % TICKS, (start + ms + 1) % TICKS) == (TICKS - (ms + 1 - elapsed)) % TICKS
  {
    var left := ms + 1 - elapsed;
    if left == TICKS {
      assert start + ms + 1 == start + elapsed + TICKS;
      assert (start + elapsed + TICKS) % TICKS == (start + elapsed) % TICKS;
    } else {
      SinceStart(start + elapsed, left);
      Backwards((start + elapsed) % TICKS, (start + elapsed + left) % TICKS, left);
    }
  }

  /**
   A module that is not parked is taken out exactly when it has been idle for more than 3000
   ticks; one parked for good never, and one parked until a tick ahead not before it.
   */
  lemma HungMeans(fed: nat, idle: nat, left: nat)
    requires idle < 0x1_0000_0000 && 0 < left <= 0x8000_0000
    ensures Hung(Timer(fed % 0x1_0000_0000, 0), (fed + idle) % 0x1_0000_0000) <==> idle > 3000
    ensures !Hung(Timer(fed % 0x1_0000_0000, 0xFFFF_FFFF), (fed + idle) % 0x1_0000_0000)
    ensures (fed + idle + left) % 0x1_0000_0000 != 0 ==> !Hung(Timer(fed % 0x1_0000_0000, (fed + idle + left) % 0x1_0000_0000), (fed + idle) % 0x1_0000_0000)
  {
    SinceStart(fed, idle);
    SinceStart(fed + idle, left);
    Backwards((fed + idle) % 0x1_0000_0000, (fed + idle + left) % 0x1_0000_0000, left);
  }

  /** Once its deadline has come, parked or not makes no difference to a module. */
  lemma OverdueMeans(fed: nat, slept: nat, past: nat)
    requires slept + past < 0x1_0000_0000 && past < 0x8000_0000 && (fed + slept) % 0x1_0000_0000 != 0xFFFF_FFFF
    ensures Hung(Timer(fed % 0x1_0000_0000, (fed + slept) % 0x1_0000_0000), (fed + slept + past) % 0x1_0000_0000) <==> slept + past > 3000
  {
    SinceStart(fed, slept + past);
    SinceStart(fed + slept, past);
  }

  /** The deadline of the sleep is a value the watchdog reads as something else. */
  predicate DeadlineIsZero(start: nat, ms: nat) {
    (start + ms + 1) % TICKS == 0
  }

  predicate DeadlineIsForever(start: nat, ms: nat) {
    (start + ms + 1) % TICKS == PARKED_FOREVER
  }

  /** A pass `elapsed` ticks after the sleeper read the clock takes it out, its deadline being stored. */
  predicate TakenAt(active: nat, start: nat, ms: nat, elapsed: nat) {
    Hung(Asleep(active, start, ms), (start + elapsed) % TICKS)
  }

  /** One between the clearing of the deadline and the feeding of the watchdog does. */
  predicate TakenWaking(active: nat, start: nat, elapsed: nat) {
    Hung(Timer(active % TICKS, 0), (start + elapsed) % TICKS)
  }

  /** No pass up to this tick takes the sleeper out; the deadline may be stored as long as that. */
  ghost predicate Spared(active: nat, start: nat, ms: nat, last: nat) {
    forall elapsed: nat :: elapsed <= last ==> !TakenAt(active, start, ms, elapsed)
  }

  /** The first tick, counted from the start of the sleep, at which the timeout has passed. */
  function Late(active: nat, start: nat): nat
    requires active <= start
  {
    if start - active > TIMEOUT then 0 else TIMEOUT + 1 - (start - active)
  }

  lemma PastDeadline(start: nat, ms: nat, elapsed: nat)
    requires ms < elapsed < TICKS
    ensures Since((start + elapsed) % TICKS, (start + ms + 1) % TICKS) == elapsed - ms - 1
  {
    SinceStart(start + ms + 1, elapsed - ms - 1);
  }

  /** Whether the stored deadline still lies ahead in the signed comparison. */
  predicate Ahead(ms: nat, elapsed: nat) {
    if elapsed <= ms then ms + 1 - elapsed <= HALF else elapsed - ms - 1 >= HALF
  }

  lemma TakenAtIff(active: nat, start: nat, ms: nat, elapsed: nat)
    requires active <= start && ms < TICKS && start + elapsed - active < TICKS
    ensures TakenAt(active, start, ms, elapsed) <==>
              elapsed >= Late(active, start) && !DeadlineIsForever(start, ms) && (DeadlineIsZero(start, ms) || !Ahead(ms, elapsed))
  {
    SinceStart(active, start + elapsed - active);
    if elapsed <= ms {
      SinceDeadline(start, ms, elapsed);
    } else {
      PastDeadline(start, ms, elapsed);
    }
  }

  /**
   A sleeping module survives every pass up to tick `last` exactly when that is before the
   timeout; or its deadline comes out as the forever mark; or its deadline does not come out
   as tick 0, is at most half the tick range away once the timeout has passed, and `last` is
   before the deadline. The module leaves the delay `ms` ticks after it entered it, which can
   be a tick after it read the clock, so a pass can fall on the deadline tick itself.
   */
  lemma SleeperSparedIff(active: nat, start: nat, ms: nat, last: nat)
    requires active <= start && ms < TICKS && start + last - active < TICKS
    ensures Spared(active, start, ms, last) <==>
              var late := Late(active, start);
              last < late || DeadlineIsForever(start, ms) || (!DeadlineIsZero(start, ms) && ms + 1 - late <= HALF && last <= ms)
  {
    forall elapsed: nat | elapsed <= last
      ensures TakenAt(active, start, ms, elapsed) <==>
              elapsed >= Late(active, start) && !DeadlineIsForever(start, ms) && (DeadlineIsZero(start, ms) || !Ahead(ms, elapsed))
    {
      TakenAtIff(active, start, ms, elapsed);
    }
    var late := Late(active, start);
    var gap := if late > ms + 1 then late else ms + 1;
    assert TakenAt(active, start, ms, late) || !TakenAt(active, start, ms, late);
    assert TakenAt(active, start, ms, gap) || !TakenAt(active, start, ms, gap);
  }

  /** A waking module, its deadline cleared and the watchdog not yet fed, is spared exactly before the timeout. */
  lemma WakingSparedIff(active: nat, start: nat, elapsed: nat)
    requires active <= start && start + elapsed - active < TICKS
    ensures !TakenWaking(active, start, elapsed) <==> elapsed < Late(active, start)
  {
    SinceStart(active, start + elapsed - active);
  }

  /**
   Four that are taken out. Five seconds that end on tick 0: after three of them the slot
   looks awake and idle. A sleep of more than 2^31 ticks, whose deadline looks past. Five
   ordinary seconds, by a pass on the deadline tick; and by one while waking.
   */
  lemma SleepersTakenOut()
    ensures TakenAt(TICKS - 5000, TICKS - 5000, 4999, 3001) && !Spared(TICKS - 5000, TICKS - 5000, 4999, 4999)
    ensures TakenAt(0, 0, HALF + 4000, 3001) && !Spared(0, 0, HALF + 4000, HALF + 4000)
    ensures Spared(1, 1, 5000, 5000) && TakenAt(1, 1, 5000, 5001)
    ensures TakenWaking(1, 1, 5000)
  {
    TakenAtIff(TICKS - 5000, TICKS - 5000, 4999, 3001);
    TakenAtIff(0, 0, HALF + 4000, 3001);
    SleeperSparedIff(1, 1, 5000, 5000);
    TakenAtIff(1, 1, 5000, 5001);
    WakingSparedIff(1, 1, 5000);
  }
}
