/**
 What a slot's event queue means, independent of the ring that implements it: a FIFO of
 groups of posts. A record in the ring is the summary of one group. The lemmas are about
 every run of posts, console commands and takes.
 */
module EventTrace {
  const CONSOLE: nat := 2
  const SATURATED: nat := 0xFFFF

  datatype Post = Post(source: nat, id: nat, payload: nat, now: nat, cycles: nat)
  /** mdl_event_t */
  datatype Event = Event(source: nat, id: nat, coalesced: nat, payload: nat, tick: nat, cycles: nat)

  /** Posts that share a record. */
  type Group = g: seq<Post> | g != [] witness [Post(0, 0, 0, 0, 0)]
  type Key = (nat, nat)

  function KeyOf(p: Post): Key {
    (p.source, p.id)
  }

  /** All posts of a group come from one source under one id, and commands are never merged. */
  ghost predicate Sound(g: Group) {
    (forall p <- g :: p.source == g[0].source && p.id == g[0].id) && (g[0].source == CONSOLE ==> |g| == 1)
  }

  /** First tick, latest payload, and how many posts, up to the counter's ceiling. */
  function Summary(g: Group): Event {
    Event(g[0].source, g[0].id, if |g| < SATURATED then |g| else SATURATED, g[|g| - 1].payload, g[0].now, g[0].cycles)
  }

  datatype Trace = Trace(queue: seq<Group>, taken: seq<Group>, lost: seq<Post>, accepted: seq<Post>)

  datatype Step = Interrupt(post: Post) | Command(now: nat, cycles: nat) | Take

  const START: Trace := Trace([], [], [], [])

  /** The first group of this key, or the number of groups. */
  function Find(gs: seq<Group>, key: Key): (k: nat)
    ensures k <= |gs| && (k < |gs| ==> KeyOf(gs[k][0]) == key)
    ensures forall j :: 0 <= j < k ==> KeyOf(gs[j][0]) != key
  {
    if gs == [] then 0
    else if KeyOf(gs[0][0]) == key then 0
    else
      var k := Find(gs[1..], key);
      assert forall j :: 0 < j < k + 1 ==> gs[j] == gs[1..][j - 1];
      k + 1
  }

  ghost predicate Ok(t: Trace, depth: nat) {
    && |t.queue| <= depth
    && (forall g <- t.queue :: Sound(g))
    && (forall g <- t.taken :: Sound(g))
    && (forall i, j :: 0 <= i < j < |t.queue| && t.queue[i][0].source == t.queue[j][0].source != CONSOLE ==> t.queue[i][0].id != t.queue[j][0].id)
  }

  function Posted(t: Trace, depth: nat, p: Post): Trace
  {
    var k := Find(t.queue, KeyOf(p));
    if k < |t.queue| then t.(queue := t.queue[k := t.queue[k] + [p]], accepted := t.accepted + [p])
    else if |t.queue| >= depth then t.(lost := t.lost + [p])
    else t.(queue := t.queue + [[p]], accepted := t.accepted + [p])
  }

  /**
   A post joins the queued group of its source and id; with none, it starts a group of its own
   if there is room and is counted as lost if there is not.
   */
  ghost predicate Taken(t: Trace, depth: nat, p: Post, u: Trace) {
    && (forall k :: 0 <= k < |t.queue| && t.queue[k][0].source == p.source && t.queue[k][0].id == p.id ==>
          u == t.(queue := t.queue[k := t.queue[k] + [p]], accepted := t.accepted + [p]))
    && ((forall k :: 0 <= k < |t.queue| ==> t.queue[k][0].source != p.source || t.queue[k][0].id != p.id) ==>
          u == if |t.queue| < depth then t.(queue := t.queue + [[p]], accepted := t.accepted + [p]) else t.(lost := t.lost + [p]))
  }

  lemma PostedIsTaken(t: Trace, depth: nat, p: Post)
    requires Ok(t, depth) && p.source != CONSOLE
    ensures Taken(t, depth, p, Posted(t, depth, p))
  {
  }

  function Commanded(t: Trace, depth: nat, now: nat, cycles: nat): Trace {
    var p := Post(CONSOLE, 0, 0, now, cycles);
    if |t.queue| < depth then t.(queue := t.queue + [[p]], accepted := t.accepted + [p]) else t
  }

  function Drained(t: Trace): Trace {
    if t.queue == [] then t else t.(queue := t.queue[1..], taken := t.taken + [t.queue[0]])
  }

  /** Interrupts never claim to be the console. */
  predicate Honest(s: Step) {
    s.Interrupt? ==> s.post.source != CONSOLE
  }

  lemma PostedOk(t: Trace, depth: nat, p: Post)
    requires Ok(t, depth) && p.source != CONSOLE
    ensures Ok(Posted(t, depth, p), depth)
  {
    var k, u := Find(t.queue, KeyOf(p)), Posted(t, depth, p);
    if k < |t.queue| {
      assert Sound(t.queue[k]);
      assert Sound(t.queue[k] + [p]);
      assert forall i :: 0 <= i < |u.queue| ==> KeyOf(u.queue[i][0]) == KeyOf(t.queue[i][0]);
    } else {
      assert Sound([p]);
    }
  }

  function Next(t: Trace, depth: nat, s: Step): (u: Trace)
    requires Ok(t, depth) && Honest(s)
    ensures Ok(u, depth)
  {
    match s
    case Interrupt(p) =>
      PostedOk(t, depth, p);
      Posted(t, depth, p)
    case Command(now, cycles) => Commanded(t, depth, now, cycles)
    case Take => Drained(t)
  }

  /** A run from reset. */
  function Run(depth: nat, steps: seq<Step>): (t: Trace)
    requires forall s <- steps :: Honest(s)
    ensures Ok(t, depth)
  {
    if steps == [] then START else Next(Run(depth, steps[..|steps| - 1]), depth, steps[|steps| - 1])
  }

  // ---- conservation ----------------------------------------------------

  function Total(gs: seq<Group>): nat {
    if gs == [] then 0 else Total(gs[..|gs| - 1]) + |gs[|gs| - 1]|
  }

  /** Posts folded into an earlier one. */
  function Merged(gs: seq<Group>): int {
    Total(gs) - |gs|
  }

  lemma {:induction false} TotalJoin(a: seq<Group>, b: seq<Group>)
    ensures Total(a + b) == Total(a) + Total(b)
  {
    if b == [] {
      assert a + b == a;
    } else {
      assert (a + b)[..|a + b| - 1] == a + b[..|b| - 1];
      TotalJoin(a, b[..|b| - 1]);
    }
  }

  lemma TotalOne(g: Group)
    ensures Total([g]) == |g|
  {
    assert [g][..0] == [];
  }

  lemma TotalSet(gs: seq<Group>, k: nat, g: Group)
    requires k < |gs|
    ensures Total(gs[k := g]) == Total(gs) - |gs[k]| + |g|
  {
    assert gs == gs[..k] + [gs[k]] + gs[k + 1..];
    assert gs[k := g] == gs[..k] + [g] + gs[k + 1..];
    TotalJoin(gs[..k] + [gs[k]], gs[k + 1..]);
    TotalJoin(gs[..k] + [g], gs[k + 1..]);
    TotalJoin(gs[..k], [g]);
    TotalJoin(gs[..k], [gs[k]]);
    TotalOne(g);
    TotalOne(gs[k]);
  }

  /** Nothing accepted goes missing: it was delivered or it is still queued. */
  ghost predicate Conserved(t: Trace) {
    Total(t.taken) + Total(t.queue) == |t.accepted|
  }

  lemma ConservedStep(t: Trace, depth: nat, s: Step)
    requires Ok(t, depth) && Honest(s) && Conserved(t)
    ensures Conserved(Next(t, depth, s))
  {
    match s
    case Interrupt(p) =>
      var k := Find(t.queue, KeyOf(p));
      if k < |t.queue| {
        TotalSet(t.queue, k, t.queue[k] + [p]);
      } else {
        TotalJoin(t.queue, [[p]]);
        TotalOne([p]);
      }
    case Command(now, cycles) =>
      TotalJoin(t.queue, [[Post(CONSOLE, 0, 0, now, cycles)]]);
      TotalOne([Post(CONSOLE, 0, 0, now, cycles)]);
    case Take =>
      if t.queue != [] {
        assert t.queue == [t.queue[0]] + t.queue[1..];
        TotalJoin([t.queue[0]], t.queue[1..]);
        TotalJoin(t.taken, [t.queue[0]]);
        TotalOne(t.queue[0]);
      }
  }

  function Offered(steps: seq<Step>, depth: nat): nat
    requires forall s <- steps :: Honest(s)
  {
    if steps == [] then 0
    else
      var front, s := steps[..|steps| - 1], steps[|steps| - 1];
      var here :=
        match s
        case Interrupt(_) => 1
        case Command(_, _) => if |Run(depth, front).queue| < depth then 1 else 0
        case Take => 0;
      Offered(front, depth) + here
  }

  /** Delivered, queued, merged and lost add up to the interrupts plus the accepted commands. */
  lemma {:induction false} Conservation(depth: nat, steps: seq<Step>)
    requires forall s <- steps :: Honest(s)
    ensures var t := Run(depth, steps);
            Conserved(t)
            && |t.taken| + |t.queue| + (Merged(t.taken) + Merged(t.queue)) + |t.lost| == Offered(steps, depth)
  {
    if steps == [] {
    } else {
      var front := steps[..|steps| - 1];
      Conservation(depth, front);
      ConservedStep(Run(depth, front), depth, steps[|steps| - 1]);
    }
  }

  // ---- counts ----------------------------------------------------------

  /** What a reader recovers by adding up the merge counts in the records. */
  function CountSum(gs: seq<Group>): nat
  {
    if gs == [] then 0 else CountSum(gs[..|gs| - 1]) + Summary(gs[|gs| - 1]).coalesced
  }

  predicate Unsaturated(gs: seq<Group>) {
    forall g <- gs :: |g| <= SATURATED
  }

  lemma {:induction false} CountSumIs(gs: seq<Group>)
    ensures CountSum(gs) <= Total(gs)
    ensures CountSum(gs) == Total(gs) <==> Unsaturated(gs)
  {
    if gs == [] {
    } else {
      var front := gs[..|gs| - 1];
      CountSumIs(front);
      assert forall g <- gs :: g in front || g == gs[|gs| - 1];
    }
  }

  /** The counts account for every post exactly as long as no record went past its ceiling. */
  lemma CountsRecoverIff(depth: nat, steps: seq<Step>)
    requires forall s <- steps :: Honest(s)
    ensures var t := Run(depth, steps);
            CountSum(t.taken) + CountSum(t.queue) + |t.lost| == Offered(steps, depth)
            <==> Unsaturated(t.taken) && Unsaturated(t.queue)
  {
    var t := Run(depth, steps);
    Conservation(depth, steps);
    CountSumIs(t.taken);
    CountSumIs(t.queue);
  }

  // ---- per source ------------------------------------------------------

  /** The posts from this source under this id, in order. */
  function PostsFrom(ps: seq<Post>, source: nat, id: nat): seq<Post> {
    if ps == [] then []
    else PostsFrom(ps[..|ps| - 1], source, id) + (if ps[|ps| - 1].source == source && ps[|ps| - 1].id == id then [ps[|ps| - 1]] else [])
  }

  lemma {:induction false} PostsFromJoin(a: seq<Post>, b: seq<Post>, source: nat, id: nat)
    ensures PostsFrom(a + b, source, id) == PostsFrom(a, source, id) + PostsFrom(b, source, id)
  {
    if b == [] {
      assert a + b == a;
    } else {
      assert (a + b)[..|a + b| - 1] == a + b[..|b| - 1];
      PostsFromJoin(a, b[..|b| - 1], source, id);
    }
  }

  /** Every post of these groups, oldest group first. */
  function Flat(gs: seq<Group>): seq<Post> {
    if gs == [] then [] else Flat(gs[..|gs| - 1]) + gs[|gs| - 1]
  }

  /** A group that another source or id posted holds nothing from this one. */
  lemma {:induction false} OthersGroup(g: seq<Post>, source: nat, id: nat)
    requires forall p <- g :: p.source != source || p.id != id
    ensures PostsFrom(g, source, id) == []
  {
    if g != [] {
      OthersGroup(g[..|g| - 1], source, id);
    }
  }

  /** So it does not matter in which order the two are looked at. */
  lemma Apart(g: Group, p: Post, source: nat, id: nat)
    requires Sound(g) && (g[0].source != p.source || g[0].id != p.id)
    ensures PostsFrom(g, source, id) + PostsFrom([p], source, id) == PostsFrom([p], source, id) + PostsFrom(g, source, id)
  {
    if p.source == source && p.id == id {
      OthersGroup(g, source, id);
    } else {
      OthersGroup([p], source, id);
    }
  }

  lemma {:induction false} FlatMerge(gs: seq<Group>, k: nat, p: Post, source: nat, id: nat)
    requires k < |gs| && forall g <- gs :: Sound(g)
    requires forall j :: k < j < |gs| ==> gs[j][0].source != p.source || gs[j][0].id != p.id
    ensures PostsFrom(Flat(gs[k := gs[k] + [p]]), source, id) == PostsFrom(Flat(gs) + [p], source, id)
  {
    hide PostsFrom, Sound;
    var n := |gs| - 1;
    var us, front, last := gs[k := gs[k] + [p]], gs[..n], gs[n];
    if k == n {
      assert us[..n] == front;
      assert Flat(us) == Flat(gs) + [p];
    } else {
      FlatMerge(front, k, p, source, id);
      assert us[..n] == front[k := front[k] + [p]];
      PostsFromJoin(Flat(us[..n]), last, source, id);
      PostsFromJoin(Flat(front), last, source, id);
      PostsFromJoin(Flat(front), [p], source, id);
      PostsFromJoin(Flat(gs), [p], source, id);
      Apart(last, p, source, id);
      var before, here, later := PostsFrom(Flat(front), source, id), PostsFrom([p], source, id), PostsFrom(last, source, id);
      assert before + here + later == before + (here + later) && before + later + here == before + (later + here);
    }
  }

  /**
   Source by source and id by id, what was delivered and what is queued replay the accepted
   posts, in order.
   */
  ghost predicate Replays(t: Trace)
  {
    forall source: nat, id: nat :: PostsFrom(Flat(t.taken + t.queue), source, id) == PostsFrom(t.accepted, source, id)
  }

  lemma ReplaysAppend(t: Trace, p: Post, source: nat, id: nat)
    requires PostsFrom(Flat(t.taken + t.queue), source, id) == PostsFrom(t.accepted, source, id)
    ensures PostsFrom(Flat(t.taken + (t.queue + [[p]])), source, id) == PostsFrom(t.accepted + [p], source, id)
  {
    var all := t.taken + (t.queue + [[p]]);
    assert all[..|all| - 1] == t.taken + t.queue;
    PostsFromJoin(Flat(t.taken + t.queue), [p], source, id);
    PostsFromJoin(t.accepted, [p], source, id);
  }

  lemma ReplaysMerge(t: Trace, depth: nat, p: Post, k: nat, source: nat, id: nat)
    requires Ok(t, depth) && k == Find(t.queue, KeyOf(p)) < |t.queue| && p.source != CONSOLE
    requires PostsFrom(Flat(t.taken + t.queue), source, id) == PostsFrom(t.accepted, source, id)
    ensures PostsFrom(Flat(t.taken + t.queue[k := t.queue[k] + [p]]), source, id) == PostsFrom(t.accepted + [p], source, id)
  {
    hide PostsFrom, Flat, Find;
    var all := t.taken + t.queue;
    forall j | |t.taken| + k < j < |all|
      ensures all[j][0].source != p.source || all[j][0].id != p.id
    {
      assert all[j] == t.queue[j - |t.taken|];
    }
    FlatMerge(all, |t.taken| + k, p, source, id);
    assert all[|t.taken| + k := all[|t.taken| + k] + [p]] == t.taken + t.queue[k := t.queue[k] + [p]];
    PostsFromJoin(Flat(all), [p], source, id);
    PostsFromJoin(t.accepted, [p], source, id);
  }

  lemma ReplaysStep(t: Trace, depth: nat, s: Step)
    requires Ok(t, depth) && Honest(s) && Replays(t)
    ensures Replays(Next(t, depth, s))
  {
    hide PostsFrom, Flat, Find, Ok;
    var u := Next(t, depth, s);
    forall source: nat, id: nat
      ensures PostsFrom(Flat(u.taken + u.queue), source, id) == PostsFrom(u.accepted, source, id)
    {
      assert PostsFrom(Flat(t.taken + t.queue), source, id) == PostsFrom(t.accepted, source, id);
      match s
      case Interrupt(p) =>
        if Find(t.queue, KeyOf(p)) < |t.queue| {
          ReplaysMerge(t, depth, p, Find(t.queue, KeyOf(p)), source, id);
        } else {
          ReplaysAppend(t, p, source, id);
        }
      case Command(now, cycles) =>
        ReplaysAppend(t, Post(CONSOLE, 0, 0, now, cycles), source, id);
      case Take =>
        if t.queue != [] {
          assert u.taken + u.queue == t.taken + t.queue;
        }
    }
  }

  lemma {:induction false} EverySourceReplayed(depth: nat, steps: seq<Step>)
    requires forall s <- steps :: Honest(s)
    ensures Replays(Run(depth, steps))
  {
    if steps == [] {
    } else {
      EverySourceReplayed(depth, steps[..|steps| - 1]);
      ReplaysStep(Run(depth, steps[..|steps| - 1]), depth, steps[|steps| - 1]);
    }
  }

  // ---- no loss under capacity ------------------------------------------

  function Consoles(gs: seq<Group>): nat
  {
    if gs == [] then 0 else Consoles(gs[..|gs| - 1]) + (if gs[|gs| - 1][0].source == CONSOLE then 1 else 0)
  }

  /** A queue full of distinct interrupt keys and console commands. */
  lemma {:induction false} QueueSize(gs: seq<Group>, keys: set<Key>)
    requires forall i, j :: 0 <= i < j < |gs| && gs[i][0].source == gs[j][0].source != CONSOLE ==> gs[i][0].id != gs[j][0].id
    requires forall g: Group <- gs :: g[0].source == CONSOLE || (g[0].source, g[0].id) in keys
    ensures |gs| <= |keys| + Consoles(gs)
    decreases |gs|
  {
    if gs == [] {
    } else {
      var front, g := gs[..|gs| - 1], gs[|gs| - 1];
      assert forall h <- front :: h in gs;
      if g[0].source == CONSOLE {
        QueueSize(front, keys);
      } else {
        var rest := keys - {(g[0].source, g[0].id)};
        forall h: Group <- front
          ensures h[0].source == CONSOLE || (h[0].source, h[0].id) in rest
        {
          var i :| 0 <= i < |front| && front[i] == h;
          assert gs[i] == h && gs[|gs| - 1] == g;
        }
        QueueSize(front, rest);
        assert keys == rest + {(g[0].source, g[0].id)};
      }
    }
  }

  ghost predicate KeysWithin(t: Trace, keys: set<Key>)
  {
    forall g: Group <- t.queue :: g[0].source == CONSOLE || (g[0].source, g[0].id) in keys
  }

  lemma KeysStep(t: Trace, depth: nat, s: Step, keys: set<Key>)
    requires Ok(t, depth) && Honest(s) && KeysWithin(t, keys) && (s.Interrupt? ==> (s.post.source, s.post.id) in keys)
    ensures KeysWithin(Next(t, depth, s), keys)
  {
  }

  /** A key that is not queued finds a queue with fewer interrupt keys than there are. */
  lemma RoomForOneMore(t: Trace, depth: nat, keys: set<Key>, key: Key)
    requires Ok(t, depth) && KeysWithin(t, keys) && key in keys && Find(t.queue, key) == |t.queue|
    ensures |t.queue| < |keys| + Consoles(t.queue)
  {
    hide Consoles;
    forall g: Group <- t.queue
      ensures g[0].source == CONSOLE || (g[0].source, g[0].id) in keys - {key}
    {
      var i :| 0 <= i < |t.queue| && t.queue[i] == g;
    }
    QueueSize(t.queue, keys - {key});
    assert keys == keys - {key} + {key};
  }

  /**
   As many slots as there are interrupt sources and commands waiting at once is enough: then
   no interrupt is lost, however fast it fires.
   */
  lemma {:induction false} NoLossUnderCapacity(depth: nat, steps: seq<Step>, keys: set<Key>, commands: nat)
    requires forall s <- steps :: Honest(s) && (s.Interrupt? ==> (s.post.source, s.post.id) in keys)
    requires |keys| + commands <= depth
    requires forall n :: 0 <= n <= |steps| ==> Consoles(Run(depth, steps[..n]).queue) <= commands
    ensures Run(depth, steps).lost == [] && KeysWithin(Run(depth, steps), keys)
  {
    hide Consoles, Ok, Find;
    if steps == [] {
    } else {
      var front, s := steps[..|steps| - 1], steps[|steps| - 1];
      forall n | 0 <= n <= |front|
        ensures Consoles(Run(depth, front[..n]).queue) <= commands
      {
        assert front[..n] == steps[..n];
      }
      NoLossUnderCapacity(depth, front, keys, commands);
      var t := Run(depth, front);
      KeysStep(t, depth, s, keys);
      assert front[..|front|] == front == steps[..|front|];
      assert Consoles(t.queue) <= commands;
      if s.Interrupt? && Find(t.queue, KeyOf(s.post)) == |t.queue| {
        RoomForOneMore(t, depth, keys, KeyOf(s.post));
      }
    }
  }

  ghost predicate NoneFromConsole(gs: seq<Group>) {
    forall g: Group <- gs :: g[0].source != CONSOLE
  }

  lemma NoneStep(t: Trace, depth: nat, s: Step)
    requires Ok(t, depth) && Honest(s) && !s.Command? && NoneFromConsole(t.queue)
    ensures NoneFromConsole(Next(t, depth, s).queue)
  {
  }

  lemma {:induction false} NoCommandsQueued(depth: nat, steps: seq<Step>)
    requires forall s <- steps :: Honest(s) && !s.Command?
    ensures NoneFromConsole(Run(depth, steps).queue)
  {
    if steps == [] {
    } else {
      NoCommandsQueued(depth, steps[..|steps| - 1]);
      NoneStep(Run(depth, steps[..|steps| - 1]), depth, steps[|steps| - 1]);
    }
  }

  lemma {:induction false} NoConsoles(gs: seq<Group>)
    requires NoneFromConsole(gs)
    ensures Consoles(gs) == 0
  {
    if gs == [] {
    } else {
      NoConsoles(gs[..|gs| - 1]);
    }
  }

  /** A single source is never lost, whatever the depth and however fast it fires. */
  lemma SingleSourceNeverLost(depth: nat, steps: seq<Step>, key: Key)
    requires depth > 0 && forall s <- steps :: Honest(s) && !s.Command? && (s.Interrupt? ==> (s.post.source, s.post.id) == key)
    ensures Run(depth, steps).lost == []
  {
    forall n | 0 <= n <= |steps|
      ensures Consoles(Run(depth, steps[..n]).queue) <= 0
    {
      NoCommandsQueued(depth, steps[..n]);
      NoConsoles(Run(depth, steps[..n]).queue);
    }
    NoLossUnderCapacity(depth, steps, {key}, 0);
  }
}
