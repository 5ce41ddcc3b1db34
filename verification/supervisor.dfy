/**
 mdl/core/supervisor.c over mdl/core/loader.c: resident modules come and go by push,
 replacement, unload, fault, timeout and boot restore. Each slot's record is an object,
 updated in place; `Inv` is what every operation keeps.
 */
module Supervisor {
  import opened Arena
  import opened Arithmetic
  import opened BootRestore
  import opened BuddyAllocator
  import opened BuddyBlocks
  import opened BuddyLists
  import opened Bytes
  import opened CommandNames
  import Crc32
  import Events
  import EventTrace
  import FlashFormat
  import F = ImageFormat
  import LoaderCopy
  import opened Loading
  import opened PinArbiter
  import opened Registry
  import opened Resources
  import opened SlotNames
  import opened Slots
  import opened Watchdog

  datatype Stimulus =
    | Push(image: Image, now: nat)
    | Unload
    | FaultAt(pc: nat)
    | Pass(now: nat)
    /** A console command that faulted its module or outlived its deadline. */
    | CommandKilled(slot: nat)
    /** The module's task returned. */
    | Finished(slot: nat)
    /** The module blocks inside the host until this tick. */
    | Parks(slot: nat, until: nat)
    /** The module makes a host call. */
    | Feeds(slot: nat, now: nat)

  /** The bits mdl_load() sets in gpio_claimed. */
  function GpioIds(claims: seq<Claim>): set<nat> {
    if claims == [] then {}
    else
      var last := claims[|claims| - 1];
      GpioIds(claims[..|claims| - 1]) + (if last.kind == KIND_GPIO then {last.id} else {})
  }

  /** They are the pins of the GPIO claims, and no others. */
  lemma {:induction false} GpioIdsMeans(claims: seq<Claim>, id: nat)
    ensures id in GpioIds(claims) <==> exists k :: 0 <= k < |claims| && claims[k].kind == 1 && claims[k].id == id
    decreases |claims|
  {
    if claims != [] {
      var front, n := claims[..|claims| - 1], |claims| - 1;
      GpioIdsMeans(front, id);
      assert forall k :: 0 <= k < n ==> front[k] == claims[k];
    }
  }

  /** The claimed bitmap the loader accumulates. */
  method ClaimedBits(claims: seq<Claim>) returns (ids: set<nat>)
    ensures ids == GpioIds(claims)
    ensures forall id: nat :: id in ids <==> exists k :: 0 <= k < |claims| && claims[k].kind == 1 && claims[k].id == id
  {
    ids := {};
    for k := 0 to |claims|
      invariant ids == GpioIds(claims[..k])
    {
      if claims[k].kind == KIND_GPIO {
        ids := ids + {claims[k].id};
      }
      assert claims[..k + 1][..k] == claims[..k];
    }
    assert claims[..|claims|] == claims;
    forall id: nat
      ensures id in ids <==> exists k :: 0 <= k < |claims| && claims[k].kind == 1 && claims[k].id == id
    {
      GpioIdsMeans(claims, id);
    }
  }

  /** What the loader keeps of the header; the last thing it writes is the state. */
  method Identify(m: Module, image: Image)
    requires image.WellMade()
    modifies m`name, m`cmdName, m`depth, m`state, m`entry, m`cmdEntry, m`evtEntry
    ensures Identified(m, image) && m.state == Loaded
  {
    m.entry := m.textLo + image.file.initOff;
    m.name := KeptName(image.file.name);
    m.cmdName := image.Command();
    m.cmdEntry := if image.file.cmdOff != 0 then m.textLo + image.file.cmdOff else 0;
    m.evtEntry := if image.file.evtOff != 0 then m.textLo + image.file.evtOff else 0;
    m.depth := image.file.depth;
    m.state := Loaded;
  }

  /** Name, command, queue depth and entry points are what the loader keeps of this image's. */
  predicate Identified(m: Module, image: Image)
    requires image.WellMade()
    reads m`name, m`cmdName, m`depth, m`textLo, m`entry, m`cmdEntry, m`evtEntry
  {
    && m.name == KeptName(image.file.name)
    && m.cmdName == image.Command()
    && m.depth == image.file.depth
    && m.entry == m.textLo + image.file.initOff
    && m.cmdEntry == (if image.file.cmdOff == 0 then 0 else m.textLo + image.file.cmdOff)
    && m.evtEntry == (if image.file.evtOff == 0 then 0 else m.textLo + image.file.evtOff)
  }

  /** Both names have full width and end in NUL, or there is no command. */
  predicate WellNamed(m: Module)
    reads m`name, m`cmdName
  {
    |m.name| == FlashFormat.NAME_MAX && (m.cmdName == [] || (|m.cmdName| == CMD_NAME_MAX && m.cmdName[CMD_NAME_MAX - 1] == 0))
  }

  /** What the slot table says of a slot between two events. */
  predicate RecordOk(m: Module, t: Timer)
    reads m`state, m`name, m`cmdName
  {
    if m.state == Empty then t.parkedUntil == 0 else WellNamed(m)
  }

  lemma IdentifiedIsNamed(m: Module, image: Image)
    requires image.WellMade() && Identified(m, image)
    ensures WellNamed(m) && m.depth == image.file.depth
  {
  }

  lemma EntriesOf(m: Module, image: Image)
    requires image.WellMade() && Identified(m, image)
    ensures m.entry == m.textLo + image.file.initOff
    ensures m.cmdEntry == (if image.file.cmdOff == 0 then 0 else m.textLo + image.file.cmdOff)
    ensures m.evtEntry == (if image.file.evtOff == 0 then 0 else m.textLo + image.file.evtOff)
  {
  }

  ghost function ViewOf(m: Module, armed: set<nat>): View
    reads m
  {
    View(m.state, m.arenaHeld, BlocksOf(m), m.res, armed)
  }

  ghost function ViewsOf(slots: seq<Module>, armed: seq<set<nat>>): (vs: seq<View>)
    requires |slots| == |armed|
    reads slots
    ensures |vs| == |slots|
  {
    seq(|slots|, i requires 0 <= i < |slots| reads slots => ViewOf(slots[i], armed[i]))
  }

  lemma VacantView(m: Module)
    requires m.state == Empty && !m.arenaHeld && m.res == []
    ensures ViewOf(m, {}) == VACANT
  {
  }

  /** registry_init() */
  method EmptyTable(count: nat) returns (table: seq<Module>)
    ensures |table| == count && forall j, k :: 0 <= j < k < count ==> table[j] != table[k]
    ensures forall j :: 0 <= j < count ==> fresh(table[j]) && table[j].state == Empty && !table[j].arenaHeld && table[j].res == []
  {
    table := [];
    for i := 0 to count
      invariant |table| == i && forall j, k :: 0 <= j < k < i ==> table[j] != table[k]
      invariant forall j :: 0 <= j < i ==> fresh(table[j]) && table[j].state == Empty && !table[j].arenaHeld && table[j].res == []
    {
      var m := new Module();
      table := table + [m];
    }
  }

  /** The zeroed s_evt table. */
  method EmptyQueues(count: nat) returns (queues: seq<Events.EventQueue>)
    ensures |queues| == count && (forall j, k :: 0 <= j < k < count ==> queues[j] != queues[k])
    ensures forall j :: 0 <= j < count ==> fresh(queues[j]) && queues[j].q.Length == F.EVT_QUEUE_MAX
  {
    queues := [];
    for i := 0 to count
      invariant |queues| == i && forall j, k :: 0 <= j < k < i ==> queues[j] != queues[k]
      invariant forall j :: 0 <= j < i ==> fresh(queues[j]) && queues[j].q.Length == F.EVT_QUEUE_MAX
    {
      var e := new Events.EventQueue(F.EVT_QUEUE_MAX);
      queues := queues + [e];
    }
  }

  class Host {
    const slots: seq<Module>
    /** Each slot's event queue. */
    const queues: seq<Events.EventQueue>
    const arena: Allocator
    const board: Board
    const layout: Layout
    /** The address space the arena lies in. */
    const ram: array<Byte>
    /** Whitelist pins that can raise an interrupt. */
    const exti: set<nat>
    /** s_pin_slot: which slot an interrupting pin wakes, or -1. */
    var routes: seq<int>
    /** armed_lines of each slot's event record, as pins. */
    var armed: seq<set<nat>>
    /** last_active_tick and parked_until_tick of each slot. */
    var timers: seq<Timer>

    ghost function Views(): (vs: seq<View>)
      requires |armed| == |slots|
      reads this`armed, slots
      ensures |vs| == |slots|
    {
      ViewsOf(slots, armed)
    }

    lemma ViewsAt(i: nat)
      requires |armed| == |slots| && i < |slots|
      ensures forall k :: 0 <= k < |slots| ==> Views()[k] == ViewOf(slots[k], armed[k])
      ensures Views()[i].armed == armed[i] && Views()[i].blocks == BlocksOf(slots[i])
    {
    }

    lemma ViewsReplaced(vs: seq<View>, i: nat, v: View)
      requires |armed| == |slots| == |vs| && i < |slots|
      requires forall k :: 0 <= k < |slots| && k != i ==> ViewOf(slots[k], armed[k]) == vs[k]
      requires ViewOf(slots[i], armed[i]) == v
      ensures Views() == vs[i := v]
    {
      hide ViewOf;
    }

    /** What a load is decided against. */
    ghost function Here(): Site
      requires arena.minOrder <= arena.maxOrder
    {
      Site(board, layout, arena.Geometry())
    }

    ghost predicate Distinct() {
      forall i, j :: 0 <= i < j < |slots| ==> slots[i] != slots[j]
    }

    /** One ring per slot, none shared. */
    ghost predicate OwnQueues() {
      && |queues| == |slots|
      && (forall i, j :: 0 <= i < j < |queues| ==> queues[i] != queues[j])
      && (forall i :: 0 <= i < |queues| ==> queues[i].q.Length == F.EVT_QUEUE_MAX)
    }

    /** The tables and the objects, which never change. */
    ghost predicate Shape()
      reads this`armed
    {
      Tabulated(board) && |board.gpio| <= ROUTES && Distinct() && OwnQueues() && |armed| == |slots|
    }

    ghost predicate AllPlaced()
      requires arena.minOrder <= arena.maxOrder
      reads slots, arena
    {
      forall m <- slots :: m.arenaHeld ==> Placed(arena.Geometry(), arena.live, layout, m)
    }

    /** The whole pool is memory. */
    ghost predicate Backed()
    {
      arena.base + Power2(arena.maxOrder) <= ram.Length <= WORD_LIMIT
    }

    ghost predicate Inv()
      reads this`routes, this`armed, slots, arena, arena.heads, arena.table
    {
      && Shape()
      && Backed()
      && arena.Valid()
      && AllPlaced()
      && ArenaOk(Views(), arena.live)
      && PinsOk(board, Views())
      && RoutesOk(Views(), routes)
    }

    /** Every slot has its timers, an empty one no deadline, and every resident the names the loader keeps. */
    ghost predicate Records()
      reads this`timers, slots
    {
      |timers| == |slots| && forall i :: 0 <= i < |slots| ==> RecordOk(slots[i], timers[i])
    }

    /** What every handler finds and leaves. */
    ghost predicate Ready()
      reads this`routes, this`armed, this`timers, slots, arena, arena.heads, arena.table
    {
      Inv() && |timers| == |slots| && Records()
    }

    /** registry_init(), mdl_events_init() and mdl_buddy_init(): an empty table. */
    constructor (board: Board, layout: Layout, exti: set<nat>, count: nat, minOrder: nat, maxOrder: nat, base: nat, memory: nat)
      requires Tabulated(board) && |board.gpio| <= ROUTES
      requires 0 < minOrder <= maxOrder && base > 0 && base % Power2(maxOrder) == 0
      requires base + Power2(maxOrder) <= memory <= WORD_LIMIT
      ensures Inv() && |slots| == |queues| == count && fresh(arena)
      ensures forall k :: 0 <= k < count ==> fresh(slots[k]) && slots[k].state == Empty && fresh(queues[k])
      ensures this.board == board && this.layout == layout && arena.live == {} && Ready() && fresh(ram)
      ensures arena.minOrder == minOrder && arena.maxOrder == maxOrder && arena.base == base
      ensures fresh(arena.heads) && fresh(arena.table)
    {
      hide Canonical, Linked, Listed, Recorded, TotalWidth, Power2, ArenaOk, PinsOk, RoutesOk, Tabulated, Placed, Partition;
      var table := EmptyTable(count);
      var rings := EmptyQueues(count);
      var a := new Allocator(minOrder, maxOrder, base);
      this.board, this.layout, this.exti := board, layout, exti;
      slots, arena, queues := table, a, rings;
      ram := new Byte[memory](_ => 0);
      routes, armed, timers := seq(ROUTES, _ => NOBODY), seq(count, _ => {}), seq(count, _ => Timer(0, 0));
      new;
      AllVacant(board, Views(), routes);
    }

    /** mdl_events_disarm_slot(): every route of slot `i` goes to nobody, every other one stays. */
    method Disarm(i: nat)
      requires i < |slots| == |armed| == |queues| && |routes| == ROUTES
      requires armed[i] == {} ==> forall id :: 0 <= id < ROUTES ==> routes[id] != i
      modifies this`routes, this`armed, queues[i]
      ensures armed == old(armed)[i := {}] && |routes| == ROUTES && queues[i].count == 0
      ensures forall id :: 0 <= id < ROUTES ==> routes[id] == if old(routes)[id] == i then NOBODY else old(routes)[id]
    {
      queues[i].Discard();
      if armed[i] == {} {
        return;
      }
      armed := armed[i := {}];
      for id := 0 to ROUTES
        invariant |routes| == ROUTES && armed == old(armed)[i := {}] && queues[i].count == 0
        invariant forall k :: 0 <= k < ROUTES ==> routes[k] == if k < id && old(routes)[k] == i then NOBODY else old(routes)[k]
      {
        if routes[id] == i {
          routes := routes[id := NOBODY];
        }
      }
    }

    /** The rest of reclaim_slot(), once the memory is back: interrupts, timers, the record itself. */
    method Vacate(i: nat, m: Module)
      requires i < |slots| == |armed| == |queues| == |timers| && |routes| == ROUTES && m == slots[i] && !m.arenaHeld
      requires armed[i] == {} ==> forall id :: 0 <= id < ROUTES ==> routes[id] != i
      modifies m`state, m`gpioClaimed, m`res, m`cmdName, m`name, m`entry, m`cmdEntry, m`evtEntry, queues[i], this`routes, this`armed, this`timers
      ensures m.state == Empty && ViewOf(m, {}) == VACANT && m.gpioClaimed == {} && m.name == [] && m.cmdName == []
      ensures m.entry == m.cmdEntry == m.evtEntry == 0
      ensures armed == old(armed)[i := {}] && timers == old(timers)[i := Timer(0, 0)] && |routes| == ROUTES
      ensures forall id :: 0 <= id < ROUTES ==> routes[id] == if old(routes)[id] == i then NOBODY else old(routes)[id]
    {
      m.state := Empty;
      timers := timers[i := Timer(0, 0)];
      Disarm(i);
      m.gpioClaimed, m.res := {}, [];
      m.cmdName, m.name := [], [];
      m.entry, m.cmdEntry, m.evtEntry := 0, 0, 0;
      VacantView(m);
    }

    /** reclaim_slot(): what the module held goes back, whoever it was and however it ended. */
    method Reclaim(i: nat)
      requires Inv() && i < |slots| == |timers|
      modifies slots[i], queues[i], this`routes, this`armed, this`timers
      modifies arena`mem, arena`lists, arena`free, arena`live, arena.heads, arena.table
      ensures Inv() && Views() == old(Views())[i := VACANT] && slots[i].state == Empty && !slots[i].arenaHeld
      ensures arena.live == old(arena.live) - old(BlocksOf(slots[i]))
      ensures armed == old(armed)[i := {}] && timers == old(timers)[i := Timer(0, 0)]
      ensures forall id :: 0 <= id < ROUTES ==> routes[id] == if old(routes)[id] == i then NOBODY else old(routes)[id]
      ensures slots[i].gpioClaimed == {} && slots[i].name == [] && slots[i].cmdName == []
      ensures slots[i].entry == slots[i].cmdEntry == slots[i].evtEntry == 0
      ensures OnlyFreeWritten(arena.Geometry(), old(arena.mem), arena.mem, arena.live)
    {
      hide Canonical, Linked, Listed, Recorded, TotalWidth, Power2, ArenaOk, PinsOk, RoutesOk, Backed, Tabulated, Placed, OnlyFreeWritten, AddrOf, Holds,
        Allocator.Valid, ViewOf, ViewsOf, BlocksOf;
      ghost var vs, live, rs := Views(), arena.live, routes;
      var m := slots[i];
      assert m in slots;
      ViewsAt(i);
      IdleHasNoRoutes(vs, routes, i);
      Arena.Release(arena, m, layout);
      Vacate(i, m);
      ViewsReplaced(vs, i, VACANT);
      ArenaVacated(vs, live, i, VACANT);
      PinsVacated(board, vs, i, VACANT);
      RoutesVacated(vs, rs, i, VACANT, routes);
      OthersStay(i, vs, live);
    }

    /** The other residents keep their places while only slot `i`'s blocks are freed. */
    lemma OthersStay(i: nat, vs: seq<View>, live: set<Block>)
      requires |armed| == |slots| && arena.minOrder <= arena.maxOrder
      requires i < |slots| == |vs| && Views() == vs[i := VACANT] && ArenaOk(vs, live)
      requires forall n <- slots :: n.arenaHeld ==> Placed(arena.Geometry(), live, layout, n)
      requires arena.live == live - vs[i].blocks
      ensures AllPlaced()
    {
      hide ArenaOk, AddrOf, Power2;
      forall n <- slots | n.arenaHeld
        ensures Placed(arena.Geometry(), arena.live, layout, n)
      {
        var j :| 0 <= j < |slots| && slots[j] == n;
        assert Views()[j].held;
        BlocksKept(vs, live, i, j);
        PlacedIn(arena.Geometry(), live, arena.live, layout, n);
      }
    }

    /** Which answer mdl_load_validate() gives for slot `i`. */
    ghost function VerdictOn(i: nat, image: Image): (st: Status)
      requires Shape() && i < |slots| && arena.minOrder <= arena.maxOrder && image.WellMade()
      reads this`armed, slots, arena`live
    {
      VerdictFor(Here(), arena.live, HeldFrom(board, Views(), i), image)
    }

    /** And which one mdl_load() gives, if the slot is empty. */
    ghost function AnswerOn(i: nat, image: Image): (st: Status)
      requires Shape() && i < |slots| && arena.minOrder <= arena.maxOrder && image.WellMade()
      reads this`armed, slots, arena`live
    {
      Answer(Here(), arena.live, HeldFrom(board, Views(), i), image)
    }

    /** mdl_load_validate(). It writes nothing. */
    method Validate(i: nat, image: Image) returns (st: Status)
      requires Inv() && i < |slots| && image.WellMade()
      ensures st == VerdictOn(i, image)
    {
      hide Inv, Allocator.Valid, TotalWidth, Power2, FitsAlone, DeviceAccepts, HeldPins, HeldFrom, Tabulated, OwnQueues,
        LoaderCopy.AllInside, LoaderCopy.InBounds, Crc32.Value, ClaimsIn, ClaimSane;
      Shaped();
      HeldMatches(i);
      if !image.headerOk {
        return BadImage;
      }
      var intact := LoaderCopy.CrcMatches(image.file);
      if !intact {
        return BadImage;
      }
      var t := Rounded(arena, image.TextBytes());
      if t == 0 {
        return TextTooBig;
      }
      var d := Rounded(arena, image.DataBytes());
      if d == 0 {
        return DataTooBig;
      }
      var fits, _ := WouldFit(arena, layout, image.TextBytes(), image.DataBytes());
      if !fits {
        return TextTooBig;
      }
      var inside := LoaderCopy.RelocsInside(image.file);
      if !inside {
        return BadReloc;
      }
      if (image.file.resOff + 4 * image.file.resCount) % WORD_LIMIT > |image.file.payload| || image.file.depth > F.EVT_QUEUE_MAX {
        return BadResTable;
      }
      var v := CheckResources(board, slots, image.Claims(), slots[i]);
      st := if v == Fine then Ok else if v == BadRes then BadResTable else ResConflict;
    }

    /** The module's blocks are of exactly the image's size classes. */
    ghost predicate OfItsSize(m: Module, image: Image)
      requires arena.minOrder <= arena.maxOrder
      reads m`text, m`data, m`heapStack
    {
      Sized(arena.Geometry(), m, image.TextBytes(), image.DataBytes(), layout.heap + layout.guard + layout.stack)
    }

    /** The module's memory holds the image: text, and GOT, data and bss as relocated for where they are. */
    ghost predicate BytesLoaded(m: Module, image: Image)
      reads ram, m`textLo, m`dataLo
    {
      && LoaderCopy.InBounds(image.file)
      && m.textLo + image.TextBytes() <= ram.Length && m.dataLo + image.DataBytes() <= ram.Length
      && ram[m.textLo..m.textLo + image.TextBytes()] == image.file.Text()
      && ram[m.dataLo..m.dataLo + image.DataBytes()] == LoaderCopy.Region(image.file, m.textLo, m.dataLo)
    }

    /** Outside the module's text and data blocks memory is as before. */
    ghost predicate OnlyItsBytes(m: Module, before: seq<Byte>)
      reads ram, m`textLo, m`textHi, m`dataLo, m`dataHi
    {
      && |before| == ram.Length
      && forall a :: 0 <= a < ram.Length && !(m.textLo <= a < m.textHi) && !(m.dataLo <= a < m.dataHi) ==> ram[a] == before[a]
    }

    /**
     mdl_load(): claims are recorded before memory is taken, so a load that passes
     validation and then finds no room leaves them behind in the still-empty slot.
     */
    method Load(i: nat, image: Image) returns (st: Status)
      requires Inv() && i < |slots| && slots[i].state == Empty && image.WellMade()
      modifies slots[i], ram
      modifies arena`mem, arena`lists, arena`free, arena`live, arena.heads, arena.table
      ensures Inv() && st == old(AnswerOn(i, image))
      ensures Views() == old(Views())[i := ViewOf(slots[i], armed[i])]
      ensures st == Ok ==> slots[i].state == Loaded && slots[i].arenaHeld && Identified(slots[i], image) && OfItsSize(slots[i], image)
      ensures st == Ok ==> arena.live == old(arena.live) + BlocksOf(slots[i]) && BlocksOf(slots[i]) !! old(arena.live)
      ensures st == Ok ==> slots[i].textLo + image.TextBytes() <= slots[i].textHi && slots[i].dataLo + image.DataBytes() <= slots[i].dataHi
      ensures st != Ok ==> arena.live == old(arena.live) && arena.free == old(arena.free) && slots[i].state == Empty
      ensures old(VerdictOn(i, image)) != Ok ==> unchanged(slots[i]) && unchanged(arena)
      ensures old(VerdictOn(i, image)) == Ok ==> slots[i].res == image.Claims() && slots[i].gpioClaimed == GpioIds(image.Claims())
      ensures if st == Ok then BytesLoaded(slots[i], image) && OnlyItsBytes(slots[i], old(ram[..])) else ram[..] == old(ram[..])
      ensures OnlyFreeWritten(arena.Geometry(), old(arena.mem), arena.mem, old(arena.live))
    {
      hide BytesLoaded, OnlyItsBytes, VerdictFor, Canonical, Linked, Listed, Recorded, TotalWidth, Power2, ArenaOk, PinsOk, RoutesOk, Backed, Tabulated,
        Placed, OnlyFreeWritten, AllFitAlone, DeviceAccepts, AddrOf, HeldFrom, GpioIds, CanHold, Identified, Allocator.Valid, Image.WellMade, Image.Claims;
      Shaped();
      ghost var vs, live, m := Views(), arena.live, slots[i];
      ghost var held := HeldFrom(board, vs, i);
      NothingWritten(arena.Geometry(), arena.mem, live);
      EmptyView(vs, live, routes, i);
      st := Validate(i, image);
      if st != Ok {
        assert Views() == vs[i := vs[i]];
        return;
      }
      LoadableMeans(Here(), live, held, image);
      var got := Occupy(i, image);
      ghost var v := ViewOf(m, armed[i]);
      assert Views() == vs[i := v];
      if got {
        ArenaTaken(vs, live, i, v);
        PinsTaken(board, vs, i, v);
      } else {
        ArenaKept(vs, live, i, v);
        PinsVacated(board, vs, i, v);
        st := TextTooBig;
      }
      RoutesKept(vs, routes, i, v);
      forall n <- slots | n.arenaHeld
        ensures Placed(arena.Geometry(), arena.live, layout, n)
      {
        if n != m {
          assert old(n.arenaHeld);
          StillPlaced(live, arena.live, n);
        }
      }
    }

    /** The writes of mdl_load(), after validation. */
    method Occupy(i: nat, image: Image) returns (ok: bool)
      requires arena.Valid() && Backed() && i < |slots| && slots[i].state == Empty && image.WellMade() && LoaderCopy.InBounds(image.file)
      modifies slots[i], ram
      modifies arena`mem, arena`lists, arena`free, arena`live, arena.heads, arena.table
      ensures arena.Valid()
      ensures slots[i].res == image.Claims() && slots[i].gpioClaimed == GpioIds(image.Claims())
      ensures !ok ==> slots[i].state == Empty && slots[i].arenaHeld == old(slots[i].arenaHeld)
      ensures !ok ==> arena.live == old(arena.live) && arena.free == old(arena.free)
      ensures ok ==> slots[i].state == Loaded && slots[i].arenaHeld && Placed(arena.Geometry(), arena.live, layout, slots[i])
      ensures ok ==> arena.live == old(arena.live) + BlocksOf(slots[i]) && BlocksOf(slots[i]) !! old(arena.live)
      ensures ok ==> slots[i].textLo + image.TextBytes() <= slots[i].textHi && slots[i].dataLo + image.DataBytes() <= slots[i].dataHi
      ensures ok ==> Identified(slots[i], image) && OfItsSize(slots[i], image)
      ensures ok <==> CanHold(Here(), old(arena.live), image)
      ensures if ok then BytesLoaded(slots[i], image) && OnlyItsBytes(slots[i], old(ram[..])) else ram[..] == old(ram[..])
      ensures OnlyFreeWritten(arena.Geometry(), old(arena.mem), arena.mem, old(arena.live))
    {
      hide Canonical, Linked, Listed, Recorded, TotalWidth, Power2, OnlyFreeWritten, AddrOf, GpioIds, CanAcquire, Allocator.Valid, Identified,
        ClaimsIn, Placed, Backed, BytesLoaded, OnlyItsBytes, LoaderCopy.InBounds, Image.WellMade, Image.Claims;
      var m := slots[i];
      var claimed := ClaimedBits(image.Claims());
      m.res, m.gpioClaimed := image.Claims(), claimed;
      ok := Acquire(arena, m, layout, image.TextBytes(), image.DataBytes());
      if ok {
        Install(m, image);
      }
    }

    /** What mdl_load() writes once it has the blocks. */
    method Install(m: Module, image: Image)
      requires arena.Valid() && Backed() && Placed(arena.Geometry(), arena.live, layout, m) && image.WellMade() && LoaderCopy.InBounds(image.file)
      requires m.textLo + image.TextBytes() <= m.textHi && m.dataLo + image.DataBytes() <= m.dataHi
      modifies ram, m`name, m`cmdName, m`depth, m`state, m`entry, m`cmdEntry, m`evtEntry
      ensures BytesLoaded(m, image) && OnlyItsBytes(m, old(ram[..])) && Identified(m, image) && m.state == Loaded
    {
      hide Allocator.Valid, Power2, LoaderCopy.InBounds, Backed, Placed, BytesLoaded, OnlyItsBytes, Identified, Image.WellMade;
      CopyIn(m, image);
      Identify(m, image);
    }

    /** The copies and relocations of mdl_load(), in the two blocks just acquired. */
    method CopyIn(m: Module, image: Image)
      requires arena.Valid() && Backed() && Placed(arena.Geometry(), arena.live, layout, m) && LoaderCopy.InBounds(image.file)
      requires m.textLo + image.TextBytes() <= m.textHi && m.dataLo + image.DataBytes() <= m.dataHi
      modifies ram
      ensures BytesLoaded(m, image) && OnlyItsBytes(m, old(ram[..]))
    {
      hide Canonical, Linked, Listed, Recorded, TotalWidth, Power2, AddrOf, LoaderCopy.InBounds, LoaderCopy.Region;
      PlacedInPool(arena, m, layout);
      LoaderCopy.LoadImage(ram, m.textLo, m.dataLo, image.file);
    }

    /** The interrupting GPIO claims among the first `n`, as start_loaded_module() arms them. */
    ghost predicate ArmedUpTo(claims: seq<Claim>, n: nat, ids: set<nat>)
      requires n <= |claims|
    {
      forall id: nat :: id in ids <==>
        id in exti && id < 32 && exists k :: 0 <= k < n && claims[k].kind == KIND_GPIO && claims[k].id == id && claims[k].edge != 0
    }

    /** Every line armed by another slot still wakes that slot. */
    ghost predicate OthersKept(i: nat, before: seq<int>)
      requires |armed| == |slots|
      reads this`armed, this`routes
    {
      forall j :: 0 <= j < |slots| && j != i ==>
        forall id <- armed[j] :: id < |routes| && id < |before| && routes[id] == before[id] == j
    }

    lemma RoutedNow(i: nat)
      requires |armed| == |slots| && RoutesOk(Views(), routes)
      ensures OthersKept(i, routes)
    {
      var vs := Views();
      forall j | 0 <= j < |slots| && j != i
        ensures forall id <- armed[j] :: id < |routes| && routes[id] == j
      {
        assert Armed(vs[j], routes, j) && vs[j].armed == armed[j];
      }
    }

    /** Taking slot `i`'s own routes away first makes no difference to the others. */
    lemma RoutesSurvive(i: nat, before: seq<int>, between: seq<int>)
      requires |armed| == |slots| && OthersKept(i, between) && |before| == |between| == ROUTES
      requires forall id :: 0 <= id < ROUTES ==> between[id] == before[id] || (before[id] == i && between[id] == NOBODY)
      ensures OthersKept(i, before)
    {
    }

    /** mdl_events_arm_gpio() */
    method ArmGpio(i: nat, id: nat, edge: nat) returns (ok: bool)
      requires Inv() && i < |slots| && slots[i].state != Empty
      requires edge != 0 ==> Declares(Views()[i], id)
      modifies this`routes, this`armed
      ensures Inv()
      ensures armed == old(armed)[i := old(armed[i]) + (if edge != 0 && id in exti && id < ROUTES then {id} else {})]
      ensures OthersKept(i, old(routes))
    {
      hide Canonical, Linked, Listed, Recorded, TotalWidth, ArenaOk, PinsOk, RoutesOk, Backed, Tabulated, Placed, Declares;
      ghost var vs, live, rs, was := Views(), arena.live, routes, armed;
      RoutedNow(i);
      if edge == 0 {
        assert armed[i] + {} == armed[i];
        return true;
      }
      if id >= ROUTES || id !in exti {
        assert armed[i] + {} == armed[i];
        return false;
      }
      RoutesLength(vs, routes);
      routes := routes[id := i];
      armed := armed[i := armed[i] + {id}];
      ghost var v := vs[i].(armed := vs[i].armed + {id});
      assert Views() == vs[i := v];
      ArenaKept(vs, live, i, v);
      PinsKept(board, vs, i, v);
      RouteArmed(board, vs, rs, i, id, v);
      RoutedNow(i);
      return true;
    }

    /** The interrupts a module declared, armed one claim after the other. */
    method ArmClaims(i: nat, m: Module)
      requires Inv() && i < |slots| && m == slots[i] && m.state == Running && armed[i] == {}
      modifies this`routes, this`armed
      ensures Inv() && armed == old(armed)[i := armed[i]]
      ensures ArmedUpTo(m.res, |m.res|, armed[i])
      ensures OthersKept(i, old(routes))
    {
      hide Canonical, Linked, Listed, Recorded, TotalWidth, ArenaOk, PinsOk, RoutesOk, Backed, Tabulated, AllPlaced, Declares, Allocator.Valid;
      RoutedNow(i);
      for k := 0 to |m.res|
        invariant Inv()
        invariant armed == old(armed)[i := armed[i]] && ArmedUpTo(m.res, k, armed[i])
        invariant OthersKept(i, old(routes))
      {
        if m.res[k].kind == KIND_GPIO && m.res[k].edge != 0 {
          DeclaresAt(Views()[i], k);
          var _ := ArmGpio(i, m.res[k].id, m.res[k].edge);
        }
      }
    }

    /** Valid, nothing posted yet, and as deep as the image asked for; 0 asks for the whole ring. */
    ghost predicate FreshQueue(e: Events.EventQueue, depth: nat)
      reads e, e.q
    {
      && e.Valid() && e.trace == EventTrace.START
      && e.depth == if depth == 0 || depth > F.EVT_QUEUE_MAX then F.EVT_QUEUE_MAX else depth
    }

    /** start_loaded_module(), its FreeRTOS task having been created. */
    method Start(i: nat, m: Module, now: nat)
      requires Inv() && i < |slots| == |timers| && m == slots[i] && m.state == Loaded && armed[i] == {}
      modifies m`state, queues[i], this`routes, this`armed, this`timers
      ensures FreshQueue(queues[i], m.depth)
      ensures Inv() && slots[i].state == Running && armed == old(armed)[i := armed[i]]
      ensures timers == old(timers)[i := Timer(now, old(timers[i].parkedUntil))]
      ensures Views() == old(Views())[i := ViewOf(m, armed[i])]
      ensures ArmedUpTo(slots[i].res, |slots[i].res|, armed[i])
      ensures OthersKept(i, old(routes))
    {
      hide Canonical, Linked, Listed, Recorded, TotalWidth, ArenaOk, PinsOk, RoutesOk, Backed, Tabulated, AllPlaced, Declares, Allocator.Valid,
        Events.EventQueue.Valid, ArmedUpTo, OthersKept;
      timers := timers[i := Timer(now, timers[i].parkedUntil)];
      SetState(i, m, Running);
      queues[i].Reset(m.depth);
      ArmClaims(i, m);
      assert Views() == old(Views())[i := ViewOf(m, armed[i])];
    }

    /** A resident's state moving among LOADED, RUNNING and FAULTED. */
    method SetState(i: nat, m: Module, s: State)
      requires Inv() && i < |slots| && m == slots[i] && m.state != Empty && s != Empty
      modifies m`state
      ensures Inv() && slots[i].state == s && Views() == old(Views())[i := old(Views()[i]).(state := s)]
    {
      hide Canonical, Linked, Listed, Recorded, TotalWidth, ArenaOk, PinsOk, RoutesOk, Backed, Tabulated, AddrOf;
      ghost var vs := Views();
      m.state := s;
      ghost var v := vs[i].(state := s);
      assert Views() == vs[i := v];
      ArenaKept(vs, arena.live, i, v);
      PinsKept(board, vs, i, v);
      RoutesKept(vs, routes, i, v);
      forall n <- slots | n.arenaHeld
        ensures Placed(arena.Geometry(), arena.live, layout, n)
      {
        assert old(n.arenaHeld);
        StillPlaced(arena.live, arena.live, n);
      }
    }

    // ---- choosing a slot -----------------------------------------------

    /** The slot's module has this name, as text, and the name is not empty. */
    predicate Named(m: Module, pushed: seq<Byte>)
      requires |pushed| == FlashFormat.NAME_MAX
      reads m
    {
      m.state != Empty && |m.name| == FlashFormat.NAME_MAX
      && FlashFormat.UpToNul(pushed) != [] && FlashFormat.UpToNul(m.name) == FlashFormat.UpToNul(pushed)
    }

    /** For a module that came from an image: the text its slot kept of the name is the text pushed. */
    lemma NamedAsLoaded(m: Module, image: Image, pushed: seq<Byte>)
      requires image.WellMade() && Identified(m, image) && |pushed| == FlashFormat.NAME_MAX
      ensures |image.file.name| == 16
      ensures Named(m, pushed) <==> m.state != Empty && FlashFormat.UpToNul(pushed) != []
                                    && FlashFormat.UpToNul(image.file.name[..15]) == FlashFormat.UpToNul(pushed)
    {
      KeptText(image.file.name);
    }

    /** find_slot_by_name() */
    method FindByName(pushed: seq<Byte>) returns (found: bool, i: nat)
      requires Records() && |pushed| == FlashFormat.NAME_MAX
      ensures found ==> i < |slots| && Named(slots[i], pushed)
      ensures forall k :: 0 <= k < |slots| && (!found || k < i) ==> !Named(slots[k], pushed)
    {
      found, i := false, 0;
      if pushed[0] == 0 {
        return;
      }
      for k := 0 to |slots|
        invariant forall j :: 0 <= j < k ==> !Named(slots[j], pushed)
      {
        if slots[k].state != Empty {
          SlotMatchesText(slots[k].name, pushed);
        }
        if slots[k].state != Empty && SlotMatches(slots[k].name, pushed) {
          return true, k;
        }
      }
    }

    /** find_free_slot() */
    method FindFree() returns (found: bool, i: nat)
      ensures found ==> i < |slots| && slots[i].state == Empty
      ensures forall k :: 0 <= k < |slots| && (!found || k < i) ==> slots[k].state != Empty
    {
      found, i := false, 0;
      for k := 0 to |slots|
        invariant forall j :: 0 <= j < k ==> slots[j].state != Empty
      {
        if slots[k].state == Empty {
          return true, k;
        }
      }
    }

    /** What each slot answers to; nothing when it is not running. */
    ghost function Commands(): (cs: seq<seq<Byte>>)
      reads slots
      ensures |cs| == |slots|
    {
      seq(|slots|, i requires 0 <= i < |slots| reads slots => if slots[i].state == Running then slots[i].cmdName else [])
    }

    /** find_slot_by_command() */
    method FindByCommand(asked: seq<Byte>) returns (found: bool, i: nat)
      requires Records() && |asked| == CMD_NAME_MAX
      ensures found ==> FirstAnswer(Commands(), asked, i)
      ensures !found ==> forall k :: 0 <= k < |slots| ==> !Answers(Commands()[k], asked)
    {
      hide FlashFormat.StrnEqual;
      found, i := false, 0;
      for k := 0 to |slots|
        invariant forall j :: 0 <= j < k ==> !Answers(Commands()[j], asked)
      {
        var m := slots[k];
        if m.state == Running && m.cmdName != [] {
          AnswersIff(m.cmdName, asked);
        }
        if m.state == Running && m.cmdName != [] && m.cmdName[0] != 0 && FlashFormat.StrnEqual(m.cmdName, asked) {
          return true, k;
        }
      }
    }

    lemma CommandsTerminated()
      requires Records()
      ensures Terminated(Commands())
    {
    }

    /** The slot a push of this name goes to: the one it replaces, else the first free one. */
    ghost predicate Target(pushed: seq<Byte>, i: nat)
      requires |pushed| == FlashFormat.NAME_MAX
      reads slots
    {
      && i < |slots|
      && ((exists k :: 0 <= k < |slots| && Named(slots[k], pushed)) ==>
           Named(slots[i], pushed) && forall k :: 0 <= k < i ==> !Named(slots[k], pushed))
      && ((forall k :: 0 <= k < |slots| ==> !Named(slots[k], pushed)) ==>
           slots[i].state == Empty && forall k :: 0 <= k < i ==> slots[k].state != Empty)
    }

    /** Which slot a push takes, or why it is refused before the image is looked at. */
    method ChooseSlot(image: Image) returns (st: Status, i: nat)
      requires Records() && image.WellMade()
      ensures st == Ok || st == NoSlot || st == CommandTaken
      ensures st == NoSlot <==> forall k :: 0 <= k < |slots| ==> slots[k].state != Empty && !Named(slots[k], image.file.name)
      ensures st != NoSlot ==> i < |slots| && Target(image.file.name, i)
      ensures st == CommandTaken <==> st != NoSlot && Refuses(Commands(), i, image.file.cmdName)
    {
      hide SlotMatches, Answers;
      var replacing, at := FindByName(image.file.name);
      i := at;
      if !replacing {
        var free, j := FindFree();
        if !free {
          return NoSlot, i;
        }
        i := j;
      }
      if image.file.cmdName[0] != 0 {
        var taken, other := FindByCommand(image.file.cmdName);
        if taken {
          OneFirst(Commands(), image.file.cmdName, other);
          if other != i {
            return CommandTaken, i;
          }
        }
      }
      st := Ok;
    }

    /** Slots other than `i` are as they were, and so are their queues, timers and every interrupt routed to them. */
    twostate predicate Undisturbed(i: nat)
      requires |armed| == |slots| == |queues| == |timers| && old(|armed| == |slots| == |timers|)
      reads this`armed, this`routes, this`timers, slots, queues
    {
      && (forall k :: 0 <= k < |slots| && k != i ==>
            unchanged(slots[k]) && unchanged(queues[k]) && armed[k] == old(armed[k]) && timers[k] == old(timers[k]))
      && OthersKept(i, old(routes))
    }

    // ---- pushes and unloads --------------------------------------------

    /** Reclaiming the slot if somebody is in it. */
    method MakeRoom(i: nat, m: Module)
      requires Ready() && i < |slots| && m == slots[i]
      modifies this`routes, this`armed, this`timers, m, queues[i]
      modifies arena`mem, arena`lists, arena`free, arena`live, arena.heads, arena.table
      ensures Ready() && m.state == Empty && !m.arenaHeld && armed == old(armed)[i := {}] && |routes| == |old(routes)| == ROUTES
      ensures Views() == old(Views())[i := ViewOf(m, {})] && timers == old(timers)[i := timers[i]]
      ensures forall id :: 0 <= id < ROUTES ==> routes[id] == old(routes)[id] || (old(routes)[id] == i && routes[id] == NOBODY)
      ensures arena.live == old(arena.live) - old(BlocksOf(m))
      ensures OnlyFreeWritten(arena.Geometry(), old(arena.mem), arena.mem, arena.live)
      ensures old(m.state == Empty) ==> unchanged(this) && unchanged(arena) && unchanged(m) && unchanged(queues[i])
    {
      hide Canonical, Linked, Listed, Recorded, TotalWidth, Power2, ArenaOk, PinsOk, RoutesOk, Backed, Tabulated, AllPlaced, OnlyFreeWritten;
      NothingWritten(arena.Geometry(), arena.mem, arena.live);
      IdleHasNoRoutes(Views(), routes, i);
      if m.state != Empty {
        Reclaim(i);
        RoutesLength(Views(), routes);
      } else {
        EmptyView(Views(), arena.live, routes, i);
        assert armed[i] == Views()[i].armed;
      }
    }

    /** A vacant slot holds no memory, as the arena's invariant has it. */
    lemma VacantHoldsNothing(i: nat, m: Module)
      requires Inv() && i < |slots| && m == slots[i] && m.state == Empty
      ensures !m.arenaHeld && BlocksOf(m) == {}
    {
      hide PinsOk, AllPlaced, Allocator.Valid, Tabulated;
      EmptyView(Views(), arena.live, routes, i);
    }

    /** Loading and starting, as a push and a boot restore both do it. */
    method BringUp(i: nat, m: Module, image: Image, now: nat) returns (st: Status)
      requires Ready() && image.WellMade() && i < |slots| && m == slots[i] && m.state == Empty
      modifies this`routes, this`armed, this`timers, m, queues[i], ram
      modifies arena`mem, arena`lists, arena`free, arena`live, arena.heads, arena.table
      ensures Ready() && st == old(AnswerOn(i, image))
      ensures armed == old(armed)[i := armed[i]] && OthersKept(i, old(routes)) && timers == old(timers)[i := timers[i]]
      ensures Views() == old(Views())[i := ViewOf(m, armed[i])]
      ensures st == Ok ==> m.state == Running && Identified(m, image) && OfItsSize(m, image) && m.arenaHeld
      ensures if st == Ok then timers[i] == Timer(now, 0) && FreshQueue(queues[i], image.file.depth)
              else timers == old(timers) && unchanged(queues[i])
      ensures st == Ok ==> m.res == image.Claims() && ArmedUpTo(image.Claims(), |image.Claims()|, armed[i])
      ensures st == Ok ==> m.textLo + image.TextBytes() <= m.textHi && m.dataLo + image.DataBytes() <= m.dataHi
      ensures arena.live == old(arena.live) + BlocksOf(m) && BlocksOf(m) !! old(arena.live)
      ensures st != Ok ==> m.state == Empty && BlocksOf(m) == {}
      ensures if st == Ok then BytesLoaded(m, image) && OnlyItsBytes(m, old(ram[..])) else ram[..] == old(ram[..])
      ensures OnlyFreeWritten(arena.Geometry(), old(arena.mem), arena.mem, old(arena.live))
    {
      hide Inv, TotalWidth, Power2, Tabulated, OnlyFreeWritten, Answer, VerdictFor, ArmedUpTo, OthersKept, BytesLoaded, OnlyItsBytes, Identified, WellNamed,
        Image.WellMade, Image.Claims, GpioIds, ViewOf, ViewsOf, Allocator.Valid, Events.EventQueue.Valid;
      Shaped();
      Routed(i);
      NothingArmed(i, m);
      st := Load(i, image);
      Routed(i);
      if st == Ok {
        IdentifiedIsNamed(m, image);
        Start(i, m, now);
      } else {
        VacantHoldsNothing(i, m);
      }
    }

    lemma NothingArmed(i: nat, m: Module)
      requires Inv() && i < |slots| && m == slots[i] && m.state == Empty
      ensures |armed| == |slots| && armed[i] == {}
    {
      hide PinsOk, AllPlaced, Allocator.Valid, Tabulated;
      EmptyView(Views(), arena.live, routes, i);
      assert Views()[i].armed == armed[i];
    }

    /** What becomes of a validated push into slot `i`: the room counts with the old module gone. */
    ghost function Outcome(i: nat, image: Image): (st: Status)
      requires i < |slots| && arena.minOrder <= arena.maxOrder
      reads slots, arena`live
      ensures st == Ok || st == TextTooBig
      ensures image.TextBytes() == 0 || image.DataBytes() == 0 ==> st == TextTooBig
    {
      if CanHold(Here(), arena.live - BlocksOf(slots[i]), image) then Ok else TextTooBig
    }

    /** The part of handle_load() after validation: the window in which the old module is gone. */
    method Replace(i: nat, m: Module, image: Image, now: nat) returns (st: Status)
      requires Ready() && image.WellMade() && i < |slots| && m == slots[i]
      requires VerdictOn(i, image) == Ok
      modifies this`routes, this`armed, this`timers, m, queues[i], ram
      modifies arena`mem, arena`lists, arena`free, arena`live, arena.heads, arena.table
      ensures Ready() && Undisturbed(i) && st == old(Outcome(i, image))
      ensures st == Ok ==> m.state == Running && Identified(m, image) && OfItsSize(m, image) && m.arenaHeld
      ensures st == Ok ==> timers[i] == Timer(now, 0) && FreshQueue(queues[i], image.file.depth)
      ensures st == Ok ==> m.res == image.Claims() && ArmedUpTo(image.Claims(), |image.Claims()|, armed[i])
      ensures st == Ok ==> m.textLo + image.TextBytes() <= m.textHi && m.dataLo + image.DataBytes() <= m.dataHi
      ensures arena.live == old(arena.live) - old(BlocksOf(m)) + BlocksOf(m)
      ensures BlocksOf(m) !! old(arena.live) - old(BlocksOf(m))
      ensures st != Ok ==> m.state == Empty && BlocksOf(m) == {}
      ensures if st == Ok then BytesLoaded(m, image) && OnlyItsBytes(m, old(ram[..])) else ram[..] == old(ram[..])
      ensures OnlyFreeWritten(arena.Geometry(), old(arena.mem), arena.mem, old(arena.live) - old(BlocksOf(m)))
    {
      hide Inv, TotalWidth, Power2, Tabulated, OnlyFreeWritten, VerdictFor, ArmedUpTo, OthersKept, BytesLoaded, OnlyItsBytes, Identified, WellNamed, CanHold,
        Image.WellMade, Image.Claims, GpioIds, ViewOf, ViewsOf, Allocator.Valid, Events.EventQueue.Valid, HeldFrom, BlocksOf;
      Shaped();
      ghost var live, rest, mem0, vs := arena.live, arena.live - BlocksOf(m), arena.mem, Views();
      MakeRoom(i, m);
      ghost var mem1, routes1 := arena.mem, routes;
      Shaped();
      HeldFromOthers(board, vs, i, ViewOf(m, {}));
      VerdictKept(Here(), live, rest, HeldFrom(board, vs, i), image);
      st := BringUp(i, m, image, now);
      WrittenTwice(arena.Geometry(), mem0, mem1, arena.mem, rest);
      RoutesSurvive(i, old(routes), routes1);
    }

    lemma Shaped()
      requires Inv()
      ensures Shape() && arena.Valid() && arena.minOrder <= arena.maxOrder
    {
    }

    lemma Routed(i: nat)
      requires Inv()
      ensures |armed| == |slots| && OthersKept(i, routes)
    {
      RoutedNow(i);
    }

    /**
     handle_load(): validated while the old module still runs, so a refused push changes
     nothing. What can still fail after that is finding room for all three blocks once the
     replaced module's are free; then that module is gone, and no other.
     */
    method HandleLoad(image: Image, now: nat) returns (st: Status, at: nat, ghost admitted: bool)
      requires Ready() && image.WellMade()
      modifies this`routes, this`armed, this`timers, slots, queues, ram
      modifies arena`mem, arena`lists, arena`free, arena`live, arena.heads, arena.table
      ensures Ready() && (st != NoSlot ==> at < |slots| && old(Target(image.file.name, at)))
      ensures st == NoSlot <==> forall k :: 0 <= k < |slots| ==> old(slots[k].state != Empty && !Named(slots[k], image.file.name))
      ensures st == CommandTaken <==> st != NoSlot && Refuses(old(Commands()), at, image.file.cmdName)
      ensures admitted <==> st != NoSlot && st != CommandTaken && old(VerdictOn(at, image)) == Ok
      ensures !admitted ==> unchanged(this) && unchanged(arena) && (forall m <- slots :: unchanged(m)) && forall e <- queues :: unchanged(e)
      ensures !admitted && st != NoSlot && st != CommandTaken ==> st == old(VerdictOn(at, image))
      ensures admitted ==> Undisturbed(at) && st == old(Outcome(at, image)) && (st != Ok ==> slots[at].state == Empty)
      ensures admitted ==> arena.live == old(arena.live) - old(BlocksOf(slots[at])) + BlocksOf(slots[at])
      ensures admitted ==> OnlyFreeWritten(arena.Geometry(), old(arena.mem), arena.mem, old(arena.live) - old(BlocksOf(slots[at])))
      ensures st == Ok ==> slots[at].state == Running && Identified(slots[at], image) && OfItsSize(slots[at], image) && slots[at].arenaHeld
      ensures st == Ok ==> timers[at] == Timer(now, 0) && FreshQueue(queues[at], image.file.depth)
      ensures admitted && (image.TextBytes() == 0 || image.DataBytes() == 0) ==> st == TextTooBig && slots[at].state == Empty
      ensures st == Ok ==> slots[at].res == image.Claims() && ArmedUpTo(image.Claims(), |image.Claims()|, armed[at])
      ensures st == Ok ==> slots[at].textLo + image.TextBytes() <= slots[at].textHi && slots[at].dataLo + image.DataBytes() <= slots[at].dataHi
      ensures if st == Ok then BytesLoaded(slots[at], image) && OnlyItsBytes(slots[at], old(ram[..])) else ram[..] == old(ram[..])
    {
      hide Inv, TotalWidth, Power2, Tabulated, Distinct, OnlyFreeWritten, Target, Refuses, Named, Records, WellNamed, FreshQueue, OfItsSize, BlocksOf, CanHold, Image.WellMade, Image.Claims,
        VerdictFor, ArmedUpTo, Identified, SlotMatches, BytesLoaded, OnlyItsBytes, Allocator.Valid, Events.EventQueue.Valid, HeldFrom;
      Shaped();
      admitted := false;
      st, at := ChooseSlot(image);
      if st != Ok {
        return;
      }
      st := Validate(at, image);
      if st != Ok {
        return;
      }
      admitted := true;
      st := Replace(at, slots[at], image, now);
    }

    /**
     What a push does to the table of commands. If the image exports no command, or one with
     a NUL in its field, nothing becomes ambiguous; PushKeepsIff says why not otherwise.
     */
    method Push(image: Image, now: nat) returns (st: Status, ghost at: nat, ghost admitted: bool)
      requires Ready() && image.WellMade()
      modifies this`routes, this`armed, this`timers, slots, queues, ram
      modifies arena`mem, arena`lists, arena`free, arena`live, arena.heads, arena.table
      ensures Ready() && Terminated(Commands()) && Terminated(old(Commands()))
      ensures admitted ==> at < |slots| && !Refuses(old(Commands()), at, image.file.cmdName)
      ensures admitted ==> Undisturbed(at) && slots[at].state == if st == Ok then Running else Empty
      ensures !admitted ==> forall m <- slots :: unchanged(m)
      ensures !admitted ==> st != Ok && Commands() == old(Commands())
      ensures admitted ==> Commands() == old(Commands())[at := if st == Ok then image.Command() else []]
      ensures image.file.cmdOff == 0 || 0 in image.file.cmdName ==> (Unambiguous(old(Commands())) ==> Unambiguous(Commands()))
    {
      hide Inv, Tabulated, Power2, TotalWidth, VerdictFor, ArmedUpTo, Refuses, SlotMatches, KeptName, BytesLoaded, OnlyItsBytes, OnlyFreeWritten,
        OthersKept, Target, Unambiguous, Named, CanHold, FreshQueue, OfItsSize, BlocksOf, Image.Claims, Allocator.Valid, HeldFrom, Answers, WellNamed, Terminated;
      Shaped();
      CommandsTerminated();
      ghost var cs, field := Commands(), image.file.cmdName;
      var where;
      st, where, admitted := HandleLoad(image, now);
      at := where;
      CommandsTerminated();
      if !admitted {
        assert forall k :: 0 <= k < |slots| ==> slots[k] in slots;
        assert Commands() == cs;
      } else {
        assert Commands() == cs[at := if st == Ok then image.Command() else []];
        SilencedKeeps(cs, at);
        if 0 in field {
          TerminatedFieldKeeps(cs, at, field);
        }
      }
    }

    /** handle_unload(), and mdl_supervisor_request_unload(): everybody goes, nothing stays allocated. */
    method HandleUnload()
      requires Ready()
      modifies this`routes, this`armed, this`timers, slots, queues
      modifies arena`mem, arena`lists, arena`free, arena`live, arena.heads, arena.table
      ensures Ready() && forall m <- slots :: m.state == Empty
      ensures arena.live == {} && arena.free == {Block(arena.maxOrder - arena.minOrder, 0)}
      ensures routes == seq(ROUTES, _ => NOBODY)
    {
      hide Canonical, Linked, Listed, Recorded, TotalWidth, Power2, ArenaOk, PinsOk, RoutesOk, Backed, Tabulated, AllPlaced, OnlyFreeWritten;
      for i := 0 to |slots|
        invariant Ready() && forall k :: 0 <= k < i ==> slots[k].state == Empty
      {
        MakeRoom(i, slots[i]);
      }
      AllGone();
    }

    lemma AllGone()
      requires Inv() && forall k :: 0 <= k < |slots| ==> slots[k].state == Empty
      ensures arena.live == {} && arena.free == {Block(arena.maxOrder - arena.minOrder, 0)}
      ensures routes == seq(ROUTES, _ => NOBODY)
    {
      hide PinsOk, AllPlaced, Tabulated, ArenaOk, RoutesOk, Canonical, Linked, Listed, Recorded, TotalWidth, Power2;
      NobodyLeft(Views(), arena.live, routes);
      EmptyPoolIsWhole(arena.free, arena.maxOrder - arena.minOrder);
    }

    // ---- faults and timeouts -------------------------------------------

    /** arch_pc_in_range() of a resident's text. */
    predicate Executing(m: Module, pc: nat)
      reads m
    {
      m.state != Empty && m.textLo <= pc < m.textHi
    }

    /** No address lies in two residents' text, so the first slot found is the only one. */
    lemma OneCulprit(i: nat, j: nat, pc: nat)
      requires Inv() && i < j < |slots|
      ensures !(Executing(slots[i], pc) && Executing(slots[j], pc))
    {
      hide Allocator.Valid, PinsOk, RoutesOk, Backed, Tabulated, AddrOf, EndOf;
      if slots[i].state != Empty && slots[j].state != Empty {
        Separate(i, j, slots[j].text);
        Separate(j, i, slots[i].text);
        PlacedApart(arena, slots[i], layout, slots[j].text);
      }
    }

    /** The slot invariants, for a resident and a block of another one. */
    lemma Separate(i: nat, j: nat, theirs: Block)
      requires Inv() && i < |slots| && j < |slots| && i != j && slots[i].state != Empty && slots[j].state != Empty
      ensures Placed(arena.Geometry(), arena.live, layout, slots[i])
      ensures BlocksOf(slots[j]) == {slots[j].text, slots[j].data, slots[j].heapStack}
      ensures theirs in BlocksOf(slots[j]) ==> theirs in arena.live && theirs !in {slots[i].text, slots[i].data, slots[i].heapStack}
    {
      hide Allocator.Valid, PinsOk, RoutesOk, Backed, Tabulated, Placed;
      var vs := Views();
      assert slots[i] in slots && vs[i].held && vs[j].held;
      assert vs[i].blocks !! vs[j].blocks;
      assert theirs in BlocksOf(slots[j]) ==> theirs in vs[j].blocks;
    }

    /** mdl_record_fault(): exactly the module whose code was running is marked. */
    method RecordFault(pc: nat) returns (inModule: bool, offset: nat)
      requires Ready()
      modifies slots
      ensures Ready()
      ensures forall k :: 0 <= k < |slots| ==> (old(Executing(slots[k], pc)) <==> old(slots[k].state != Empty && slots[k].textLo <= pc < slots[k].textHi))
      ensures inModule <==> exists k :: 0 <= k < |slots| && old(Executing(slots[k], pc))
      ensures forall k :: 0 <= k < |slots| ==> slots[k].state == if old(Executing(slots[k], pc)) then Faulted else old(slots[k].state)
      ensures forall k :: 0 <= k < |slots| && !old(Executing(slots[k], pc)) ==> unchanged(slots[k])
      ensures forall k :: 0 <= k < |slots| && old(Executing(slots[k], pc)) ==> offset == pc - old(slots[k].textLo)
    {
      hide Canonical, Linked, Listed, Recorded, TotalWidth, Power2, ArenaOk, PinsOk, RoutesOk, Backed, Tabulated, AllPlaced, Allocator.Valid;
      inModule, offset := false, 0xFFFF_FFFF;
      for i := 0 to |slots|
        invariant !inModule && forall k :: 0 <= k < i ==> !Executing(slots[k], pc)
        invariant forall m <- slots :: unchanged(m)
        invariant Ready() && offset == 0xFFFF_FFFF
      {
        if Executing(slots[i], pc) {
          forall k | i < k < |slots|
            ensures !Executing(slots[k], pc)
          {
            OneCulprit(i, k, pc);
          }
          offset := pc - slots[i].textLo;
          SetState(i, slots[i], Faulted);
          return true, offset;
        }
      }
    }

    /** The watchdog takes this slot out on a pass at tick `now`. */
    predicate Doomed(m: Module, t: Timer, now: nat)
      reads m
    {
      m.state == Faulted || (m.state == Running && Hung(t, now))
    }

    /** Faulted at once; running once it is idle for more than 3000 ticks unless it is parked; otherwise never. */
    lemma DoomedMeans(m: Module, fed: nat, idle: nat)
      requires idle < 0x1_0000_0000
      ensures m.state == Faulted ==> forall t: Timer, now: nat :: Doomed(m, t, now)
      ensures m.state != Faulted && m.state != Running ==> forall t: Timer, now: nat :: !Doomed(m, t, now)
      ensures m.state == Running ==>
                (Doomed(m, Timer(fed % 0x1_0000_0000, 0), (fed + idle) % 0x1_0000_0000) <==> idle > 3000)
                && !Doomed(m, Timer(fed % 0x1_0000_0000, 0xFFFF_FFFF), (fed + idle) % 0x1_0000_0000)
    {
      HungMeans(fed, idle, 1);
      hide Hung;
    }

    /**
     The per-slot part of mdl_supervisor_run(). `nows[i]` is the tick read at slot `i`.
     Exactly the doomed slots are emptied.
     */
    method WatchdogPass(nows: seq<nat>)
      requires Ready() && |nows| == |slots|
      modifies this`routes, this`armed, this`timers, slots, queues
      modifies arena`mem, arena`lists, arena`free, arena`live, arena.heads, arena.table
      ensures Ready()
      ensures forall k :: 0 <= k < |slots| ==>
                if old(Doomed(slots[k], timers[k], nows[k])) then slots[k].state == Empty
                else unchanged(slots[k]) && unchanged(queues[k]) && armed[k] == old(armed)[k] && timers[k] == old(timers)[k]
    {
      hide Canonical, Linked, Listed, Recorded, TotalWidth, Power2, ArenaOk, PinsOk, RoutesOk, Backed, Tabulated, AllPlaced, OnlyFreeWritten,
        Hung, Allocator.Valid;
      for i := 0 to |slots|
        invariant Ready()
        invariant forall k :: 0 <= k < |slots| ==>
                    if k < i && old(Doomed(slots[k], timers[k], nows[k])) then slots[k].state == Empty
                    else unchanged(slots[k]) && unchanged(queues[k]) && armed[k] == old(armed)[k] && timers[k] == old(timers)[k]
      {
        if slots[i].state == Faulted {
          Reclaim(i);
        } else if slots[i].state == Running && Hung(timers[i], nows[i]) {
          SetState(i, slots[i], Faulted);
          Reclaim(i);
        }
      }
    }

    // ---- whole runs ----------------------------------------------------

    /** A saved entry's module is resident with this record, queue and timer, started at tick `now`. */
    ghost predicate RestoredFrom(m: Module, q: Events.EventQueue, t: Timer, e: Saved, now: nat)
      requires Usable(e)
      reads m, q, q.q
    {
      && e.Stored? && m.state == Running && Identified(m, e.image) && m.res == e.image.Claims()
      && t == Timer(now, 0) && FreshQueue(q, e.image.file.depth)
    }

    ghost function Names(): (names: seq<seq<Byte>>)
      reads slots
      ensures |names| == |slots|
    {
      seq(|slots|, i requires 0 <= i < |slots| reads slots => slots[i].name)
    }

    ghost function Now(): (at: Moment)
      requires |armed| == |slots|
      reads this`armed, slots, arena`live
      ensures at.Wide() && |at.vs| == |slots|
    {
      Moment(Views(), Names(), Commands(), arena.live)
    }

    /** What is in a slot stays as it is. */
    twostate predicate ResidentsKept()
      requires |armed| == |slots| == |queues| == |timers| && old(|armed| == |slots| == |timers|)
      reads this`armed, this`timers, slots, queues
    {
      forall k :: 0 <= k < |slots| && old(slots[k].state) != Empty ==>
        unchanged(slots[k]) && unchanged(queues[k]) && armed[k] == old(armed)[k] && timers[k] == old(timers)[k]
    }

    /** The load of one saved image into the slot found for it. */
    method RestoreInto(i: nat, m: Module, image: Image, now: nat)
      requires Ready() && image.WellMade() && i < |slots| && m == slots[i] && m.state == Empty && FirstFree(Views()) == i
      modifies this`routes, this`armed, this`timers, m, queues[i], ram
      modifies arena`mem, arena`lists, arena`free, arena`live, arena.heads, arena.table
      ensures Ready() && armed == old(armed)[i := armed[i]] && timers == old(timers)[i := timers[i]]
      ensures Turn(Here(), old(Now()), Stored(image), Now())
      ensures m.state != Empty ==> RestoredFrom(m, queues[i], timers[i], Stored(image), now)
    {
      hide Inv, Tabulated, TotalWidth, Power2, OnlyFreeWritten, Allocator.Valid, Events.EventQueue.Valid, BlocksOf, ViewsOf, FirstFree,
        ArmedUpTo, OthersKept, Identified, WellNamed, BytesLoaded, OnlyItsBytes, Image.WellMade, Image.Claims, Image.Command, Answer, HeldFrom, Records,
        Classed, OfItsSize, FreshQueue;
      Shaped();
      ghost var names, cs := Names(), Commands();
      var st := BringUp(i, m, image, now);
      Shaped();
      assert Names() == names[i := m.name];
      assert Commands() == cs[i := if m.state == Running then m.cmdName else []];
      assert cs[i] == [];
      if st == Ok {
        AsIdentified(m, image);
        AsSized(m, image);
      }
    }

    lemma AsIdentified(m: Module, image: Image)
      requires image.WellMade() && Identified(m, image)
      ensures m.name == KeptName(image.file.name) && m.cmdName == image.Command()
    {
    }

    lemma AsSized(m: Module, image: Image)
      requires arena.minOrder <= arena.maxOrder && OfItsSize(m, image) && m.arenaHeld
      ensures Classed(Here(), BlocksOf(m), image)
    {
    }

    /** One iteration of the loop of mdl_supervisor_restore(). */
    method RestoreOne(e: Saved, now: nat) returns (more: bool)
      requires Ready() && Usable(e)
      modifies this`routes, this`armed, this`timers, slots, queues, ram
      modifies arena`mem, arena`lists, arena`free, arena`live, arena.heads, arena.table
      ensures Ready() && ResidentsKept()
      ensures Turn(Here(), old(Now()), e, Now())
      ensures forall k :: 0 <= k < |slots| && old(slots[k].state) == Empty && slots[k].state != Empty ==> RestoredFrom(slots[k], queues[k], timers[k], e, now)
      ensures !more ==> FirstFree(Now().vs) == |slots|
    {
      hide Inv, Tabulated, TotalWidth, Power2, Allocator.Valid, Admissible, Hosts, RestoredFrom, Image.WellMade, FirstFree, Records;
      Shaped();
      more := true;
      if e.Unreadable? {
        return;
      }
      var free, i := FindFree();
      if free {
        FirstFreeIs(Views(), i);
        RestoreInto(i, slots[i], e.image, now);
        Shaped();
      } else {
        NoneFree(Views());
        more := false;
      }
    }

    /**
     mdl_supervisor_restore(): every saved image had its turn and is running now, or was
     refused at its turn for a reason; one that no longer loads does not stop the rest. A
     table that answered to nothing answers unambiguously exactly if no two entries clash.
     */
    method Restore(saved: seq<Saved>, now: nat) returns (ghost moments: seq<Moment>)
      requires Ready() && forall j :: 0 <= j < |saved| ==> Usable(saved[j])
      modifies this`routes, this`armed, this`timers, slots, queues, ram
      modifies arena`mem, arena`lists, arena`free, arena`live, arena.heads, arena.table
      ensures Ready() && ResidentsKept()
      ensures Turns(Here(), moments, saved) && moments[0] == old(Now()) && moments[|saved|] == Now()
      ensures forall n :: 0 <= n < |saved| ==> AccountedFor(Here(), moments[n], saved[n], Now())
      ensures forall k :: 0 <= k < |slots| && old(slots[k].state) == Empty && slots[k].state != Empty ==>
                exists n :: 0 <= n < |saved| && RestoredFrom(slots[k], queues[k], timers[k], saved[n], now)
      ensures Silent(old(Commands())) ==> (Unambiguous(Commands()) <==> NoClash(Here(), moments, saved, |saved|))
    {
      hide Inv, Tabulated, TotalWidth, Power2, Allocator.Valid, RestoredFrom, Turn, AccountedFor, Image.WellMade, Now, Records, FirstFree, Distinct,
        Unambiguous, NoClash, Silent;
      Shaped();
      NowMeans();
      moments := [Now()];
      for n := 0 to |saved|
        invariant Ready() && Shape() && ResidentsKept()
        invariant |moments| == n + 1 && moments[0] == old(Now()) && moments[n] == Now()
        invariant forall j :: 0 <= j < n ==> Turn(Here(), moments[j], saved[j], moments[j + 1])
        invariant forall k :: 0 <= k < |slots| && old(slots[k].state) == Empty && slots[k].state != Empty ==>
                    exists j :: 0 <= j < n && RestoredFrom(slots[k], queues[k], timers[k], saved[j], now)
      {
        var more := RestoreOne(saved[n], now);
        Shaped();
        moments := moments + [Now()];
        if !more {
          moments := FullRest(Here(), moments, saved);
          break;
        }
      }
      NowMeans();
      RestoreMeans(Here(), moments, saved);
    }

    lemma NowMeans()
      requires |armed| == |slots|
      ensures Now().cs == Commands()
    {
    }

    /** A push of a module without a console command, or with one shorter than its field. */
    predicate SafelyNamed(what: Stimulus) {
      what.Push? ==> what.image.file.cmdOff == 0 || 0 in what.image.file.cmdName
    }

    /** What each stimulus does to the slots and their timers; a push concerns slot `at` alone. */
    twostate predicate Effect(what: Stimulus, at: nat)
      requires |timers| == |slots| && old(|timers|) == |slots|
      reads this`timers, slots, arena`live
    {
      match what
      case Push(_, _) =>
        forall k :: 0 <= k < |slots| && k != at ==> unchanged(slots[k])
      case Unload =>
        arena.live == {} && forall k :: 0 <= k < |slots| ==> slots[k].state == Empty
      case FaultAt(pc) =>
        forall k :: 0 <= k < |slots| ==> slots[k].state == if old(Executing(slots[k], pc)) then Faulted else old(slots[k].state)
      case Pass(now) =>
        forall k :: 0 <= k < |slots| ==>
          if old(Doomed(slots[k], timers[k], now)) then slots[k].state == Empty else unchanged(slots[k])
      case CommandKilled(i) =>
        forall k :: 0 <= k < |slots| ==>
          if k == i && old(slots[k].state) in {Running, Faulted} then slots[k].state == Empty else unchanged(slots[k])
      case Finished(i) =>
        forall k :: 0 <= k < |slots| ==> slots[k].state == if k == i && old(slots[k].state) == Running then Loaded else old(slots[k].state)
      case Parks(i, until) =>
        forall k :: 0 <= k < |slots| ==> unchanged(slots[k]) && TimerIs(k, if k == i && slots[k].state == Running then until else old(timers)[k].parkedUntil, old(timers)[k].lastActive)
      case Feeds(i, now) =>
        forall k :: 0 <= k < |slots| ==> unchanged(slots[k]) && TimerIs(k, old(timers)[k].parkedUntil, if k == i && slots[k].state == Running then now else old(timers)[k].lastActive)
    }

    predicate TimerIs(k: nat, parkedUntil: nat, lastActive: nat)
      requires k < |timers|
      reads this`timers
    {
      timers[k].parkedUntil == parkedUntil && timers[k].lastActive == lastActive
    }

    /** What a running module does itself, or the supervisor does to it while it runs a command. */
    method ModuleStep(what: Stimulus)
      requires Ready() && !what.Push? && !what.Unload? && !what.FaultAt? && !what.Pass?
      modifies this`routes, this`armed, this`timers, slots, queues
      modifies arena`mem, arena`lists, arena`free, arena`live, arena.heads, arena.table
      ensures Ready() && Effect(what, 0)
      ensures Unambiguous(old(Commands())) ==> Unambiguous(Commands())
    {
      hide Inv, Allocator.Valid, Tabulated, WellNamed, Unambiguous, BlocksOf;
      Shaped();
      ghost var cs := Commands();
      var i := what.slot;
      if i < |slots| && (slots[i].state == Running || (slots[i].state == Faulted && what.CommandKilled?)) {
        match what {
          case CommandKilled(_) => MakeRoom(i, slots[i]);
          case Finished(_) => SetState(i, slots[i], Loaded);
          case Parks(_, until) => timers := timers[i := timers[i].(parkedUntil := until)];
          case Feeds(_, now) => timers := timers[i := timers[i].(lastActive := now)];
        }
      }
      assert forall k :: 0 <= k < |slots| ==> Commands()[k] == cs[k] || Commands()[k] == [];
      FewerKeep(cs, Commands());
    }

    /** Everything that happens to the table in a run; an index that names no slot is ignored. */
    method Step(what: Stimulus) returns (ghost at: nat)
      requires Ready() && (what.Push? ==> what.image.WellMade())
      modifies this`routes, this`armed, this`timers, slots, queues, ram
      modifies arena`mem, arena`lists, arena`free, arena`live, arena.heads, arena.table
      ensures Ready() && Effect(what, at)
      ensures SafelyNamed(what) ==> (Unambiguous(old(Commands())) ==> Unambiguous(Commands()))
    {
      hide Inv, Allocator.Valid, Tabulated, Records, Unambiguous, OthersKept, Executing, Doomed, Image.WellMade, Target, Refuses, BlocksOf, Terminated;
      Shaped();
      ghost var cs := Commands();
      at := 0;
      assert forall k :: 0 <= k < |slots| ==> slots[k] in slots;
      match what {
        case Push(image, now) =>
          var _, where, _ := Push(image, now);
          at := where;
          return;
        case Unload =>
          HandleUnload();
        case FaultAt(pc) =>
          var _, _ := RecordFault(pc);
        case Pass(now) =>
          WatchdogPass(seq(|slots|, _ => now));
        case _ =>
          ModuleStep(what);
          return;
      }
      assert forall k :: 0 <= k < |slots| ==> Commands()[k] == cs[k] || Commands()[k] == [];
      FewerKeep(cs, Commands());
    }

    method Run(stimuli: seq<Stimulus>)
      requires Ready() && forall s <- stimuli :: s.Push? ==> s.image.WellMade()
      modifies this`routes, this`armed, this`timers, slots, queues, ram
      modifies arena`mem, arena`lists, arena`free, arena`live, arena.heads, arena.table
      ensures Ready()
      ensures (forall s <- stimuli :: SafelyNamed(s)) && Unambiguous(old(Commands())) ==> Unambiguous(Commands())
    {
      hide Inv, Unambiguous, Effect, SafelyNamed;
      for n := 0 to |stimuli|
        invariant Ready()
        invariant (forall s <- stimuli :: SafelyNamed(s)) && Unambiguous(old(Commands())) ==> Unambiguous(Commands())
      {
        var _ := Step(stimuli[n]);
      }
    }

    /** What the invariant says of the pins: each has one resident, one claim, and is not the host's. */
    lemma PinsExclusive(i: nat, j: nat, pin: Pin)
      requires Inv() && i < |slots| && j < |slots| && i != j && slots[i].state != Empty && slots[j].state != Empty
      ensures pin in AllPins(board, slots[i].res) ==> pin !in AllPins(board, slots[j].res) && !Hard(board.owners, pin)
      ensures NoRepeats(AllPins(board, slots[i].res))
    {
      hide ArenaOk, AllPlaced, RoutesOk, Allocator.Valid, Tabulated, AllPins, Hard, PinsOf;
      var vs := Views();
      assert vs[i].claims == slots[i].res && vs[j].claims == slots[j].res;
      assert Holds(board, vs[i], pin) <==> pin in AllPins(board, slots[i].res);
      assert Holds(board, vs[j], pin) <==> pin in AllPins(board, slots[j].res);
    }

    /** And of memory: a buffer accepted for one resident touches no block of another. */
    lemma BuffersExclusive(i: nat, j: nat, at: nat, len: nat, theirs: Block)
      requires Inv() && i < |slots| && j < |slots| && i != j && slots[i].state != Empty && theirs in BlocksOf(slots[j])
      requires arena.base + Power2(arena.maxOrder) < 0x1_0000_0000 && at < 0x1_0000_0000 && 0 < len < 0x1_0000_0000
      ensures slots[i].textLo <= slots[i].textHi < 0x1_0000_0000 && slots[i].dataLo <= slots[i].dataHi < 0x1_0000_0000
      ensures slots[i].heapStackLo + layout.heap + layout.guard <= slots[i].heapStackHi < 0x1_0000_0000
      ensures PtrOwned(slots[i], layout, at, len) ==> Arena.Apart(at, at + len, slots[i].guardLo, slots[i].guardHi)
      ensures PtrOwned(slots[i], layout, at, len) ==>
                Arena.Apart(at, at + len, AddrOf(arena.Geometry(), theirs), EndOf(arena.Geometry(), theirs))
    {
      hide Allocator.Valid, PinsOk, RoutesOk, Backed, Tabulated, ArenaOk, AddrOf, EndOf, PtrOwned, Arena.Apart, Placed;
      SeparateOf(i, j, theirs);
      OwnedIsExclusive(arena, slots[i], layout, at, len, theirs);
    }

    /** And none is turned away: accepted is exactly what lies inside the resident's text, data, heap or stack. */
    lemma BuffersAccepted(i: nat, at: nat, len: nat)
      requires Inv() && i < |slots| && slots[i].state != Empty
      requires arena.base + Power2(arena.maxOrder) < 0x1_0000_0000 && at < 0x1_0000_0000 && len < 0x1_0000_0000
      ensures slots[i].textLo <= slots[i].textHi < 0x1_0000_0000 && slots[i].dataLo <= slots[i].dataHi < 0x1_0000_0000
      ensures slots[i].heapStackLo + layout.heap + layout.guard <= slots[i].heapStackHi < 0x1_0000_0000
      ensures PtrOwned(slots[i], layout, at, len) <==>
              || len == 0
              || (slots[i].textLo <= at && at + len <= slots[i].textHi)
              || (slots[i].dataLo <= at && at + len <= slots[i].dataHi)
              || (slots[i].heapStackLo <= at && at + len <= slots[i].heapStackLo + layout.heap)
              || (slots[i].heapStackLo + layout.heap + layout.guard <= at && at + len <= slots[i].heapStackHi)
    {
      hide Allocator.Valid, PinsOk, RoutesOk, Backed, Tabulated, PtrOwned, Placed;
      assert Views()[i].held && slots[i] in slots;
      hide ArenaOk, AllPlaced;
      OwnedIff(arena, slots[i], layout, at, len);
    }

    lemma SeparateOf(i: nat, j: nat, theirs: Block)
      requires Inv() && i < |slots| && j < |slots| && i != j && slots[i].state != Empty && theirs in BlocksOf(slots[j])
      ensures Placed(arena.Geometry(), arena.live, layout, slots[i])
      ensures theirs in arena.live && theirs !in {slots[i].text, slots[i].data, slots[i].heapStack}
    {
      hide Allocator.Valid, PinsOk, RoutesOk, Backed, Tabulated, Placed, AllPlaced;
      assert Views()[j].held;
      Separate(i, j, theirs);
    }

    /** What the loader writes for one resident lies apart from itself and from every block of another. */
    lemma BlocksApart(i: nat, j: nat, theirs: Block)
      requires Inv() && i < |slots| && j < |slots| && i != j && slots[i].state != Empty && theirs in BlocksOf(slots[j])
      ensures Arena.Apart(slots[i].textLo, slots[i].textHi, slots[i].dataLo, slots[i].dataHi)
      ensures Arena.Apart(slots[i].textLo, slots[i].textHi, AddrOf(arena.Geometry(), theirs), EndOf(arena.Geometry(), theirs))
      ensures Arena.Apart(slots[i].dataLo, slots[i].dataHi, AddrOf(arena.Geometry(), theirs), EndOf(arena.Geometry(), theirs))
      ensures Arena.Apart(slots[i].heapStackLo, slots[i].heapStackHi, AddrOf(arena.Geometry(), theirs), EndOf(arena.Geometry(), theirs))
    {
      hide Allocator.Valid, PinsOk, RoutesOk, Backed, Tabulated, ArenaOk, AddrOf, EndOf, Arena.Apart, Placed;
      SeparateOf(i, j, theirs);
      PlacedApart(arena, slots[i], layout, theirs);
    }

    /** So every byte of every other resident survives a load. */
    lemma NeighbourBytesKept(i: nat, j: nat, theirs: Block, a: nat, before: seq<Byte>)
      requires Inv() && i < |slots| && j < |slots| && i != j && slots[i].state != Empty && theirs in BlocksOf(slots[j])
      requires OnlyItsBytes(slots[i], before) && AddrOf(arena.Geometry(), theirs) <= a < EndOf(arena.Geometry(), theirs) && a < ram.Length
      ensures a < |before| && ram[a] == before[a]
    {
      hide Inv, AddrOf, EndOf;
      BlocksApart(i, j, theirs);
    }

    // ---- where interrupts go -------------------------------------------

    /** gpio_isr(): an edge goes to the one resident that declared the pin, or to nobody. */
    method EdgeTarget(pin: int) returns (slot: int)
      requires Inv()
      ensures slot == NOBODY || (0 <= slot < |slots| && slots[slot].state != Empty && pin >= 0 && Declares(Views()[slot], pin))
      ensures forall k :: 0 <= k < |slots| && k != slot ==> pin !in armed[k]
    {
      hide ArenaOk, PinsOk, AllPlaced, Allocator.Valid, Tabulated, Backed;
      slot := NOBODY;
      RoutesLength(Views(), routes);
      if 0 <= pin < ROUTES {
        slot := routes[pin];
      }
      RouteMeans(Views(), routes, pin, slot);
      assert forall k :: 0 <= k < |slots| ==> Views()[k].armed == armed[k];
    }

    /** mdl_events_post_uart(): the search for the resident that claimed the port. */
    method UartTarget(instance: nat) returns (found: bool, slot: nat)
      requires Inv()
      ensures found ==> slot < |slots| && ClaimsUart(slots[slot], instance)
      ensures forall k :: 0 <= k < |slots| && ClaimsUart(slots[k], instance) ==> found && k == slot
    {
      hide ArenaOk, RoutesOk, PinsOk, AllPlaced, Allocator.Valid, Tabulated, Backed;
      found, slot := false, 0;
      for i := 0 to |slots|
        invariant forall k :: 0 <= k < i ==> !ClaimsUart(slots[k], instance)
      {
        if slots[i].state == Empty {
          continue;
        }
        for r := 0 to |slots[i].res|
          invariant forall q :: 0 <= q < r ==> slots[i].res[q].kind != KIND_UART || slots[i].res[q].id != instance
        {
          if slots[i].res[r].kind == KIND_UART && slots[i].res[r].id == instance {
            assert slots[i].res[r] in slots[i].res;
            OnlyUart(i, instance);
            return true, i;
          }
        }
      }
    }

    predicate ClaimsUart(m: Module, instance: nat)
      reads m
    {
      m.state != Empty && exists c <- m.res :: c.kind == KIND_UART && c.id == instance
    }

    lemma OnlyUart(i: nat, instance: nat)
      requires Inv() && i < |slots| && ClaimsUart(slots[i], instance)
      ensures forall k :: 0 <= k < |slots| && ClaimsUart(slots[k], instance) ==> k == i
    {
      hide ArenaOk, RoutesOk, PinsOk, AllPlaced, Allocator.Valid, Tabulated, Backed;
      forall k | 0 <= k < |slots| && ClaimsUart(slots[k], instance)
        ensures k == i
      {
        var c :| c in slots[i].res && c.kind == KIND_UART && c.id == instance;
        var d :| d in slots[k].res && d.kind == KIND_UART && d.id == instance;
        ClaimedOnce(board, Views(), i, k, c, d);
      }
    }

    /** The pins other residents hold, read off the views. */
    lemma HeldMatches(i: nat)
      requires Shape() && i < |slots|
      ensures HeldPins(board, slots, slots[i]) == HeldFrom(board, Views(), i)
    {
      forall pin: Pin
        ensures SomeoneHolds(board, slots, slots[i], pin) <==> HeldElsewhere(board, Views(), i, pin)
      {
        hide AllPins;
        if HeldElsewhere(board, Views(), i, pin) {
          var j :| 0 <= j < |slots| && j != i && Holds(board, Views()[j], pin);
          assert slots[j] in slots && ModuleHolds(board, slots[j], pin);
        }
        if SomeoneHolds(board, slots, slots[i], pin) {
          var m :| m in slots && m != slots[i] && ModuleHolds(board, m, pin);
          var j :| 0 <= j < |slots| && slots[j] == m;
          assert Holds(board, Views()[j], pin);
        }
      }
    }

    /** Placement survives as long as the blocks stay live. */
    lemma StillPlaced(before: set<Block>, after: set<Block>, n: Module)
      requires arena.minOrder <= arena.maxOrder && before <= after && Placed(arena.Geometry(), before, layout, n)
      ensures Placed(arena.Geometry(), after, layout, n)
    {
    }
  }

  lemma PlacedIn(p: Pool, live: set<Block>, after: set<Block>, y: Layout, m: Module)
    requires Placed(p, live, y, m) && {m.text, m.data, m.heapStack} <= after
    ensures Placed(p, after, y, m)
  {
  }

  lemma EmptyView(vs: seq<View>, live: set<Block>, routes: seq<int>, i: nat)
    requires ArenaOk(vs, live) && RoutesOk(vs, routes) && i < |vs| && vs[i].state == Empty
    ensures !vs[i].held && vs[i].blocks == {} && vs[i].armed == {}
  {
  }

  lemma NobodyLeft(vs: seq<View>, live: set<Block>, routes: seq<int>)
    requires ArenaOk(vs, live) && RoutesOk(vs, routes) && forall i :: 0 <= i < |vs| ==> vs[i].state == Empty
    ensures live == {} && |routes| == ROUTES && forall id :: 0 <= id < ROUTES ==> routes[id] == NOBODY
  {
  }

  lemma RouteMeans(vs: seq<View>, routes: seq<int>, pin: int, slot: int)
    requires RoutesOk(vs, routes) && slot == if 0 <= pin < ROUTES then routes[pin] else NOBODY
    ensures slot == NOBODY || (0 <= slot < |vs| && vs[slot].state != Empty && pin >= 0 && Declares(vs[slot], pin))
    ensures forall k :: 0 <= k < |vs| && k != slot ==> pin !in vs[k].armed
  {
    hide Declares;
    if slot != NOBODY {
      assert Armed(vs[slot], routes, slot);
    }
    forall k | 0 <= k < |vs| && k != slot
      ensures pin !in vs[k].armed
    {
      assert Armed(vs[k], routes, k);
    }
  }

  lemma RoutesLength(vs: seq<View>, routes: seq<int>)
    requires RoutesOk(vs, routes)
    ensures |routes| == ROUTES
  {
  }

  lemma DeclaresAt(v: View, k: nat)
    requires k < |v.claims| && v.claims[k].kind == KIND_GPIO && v.claims[k].edge != 0
    ensures Declares(v, v.claims[k].id)
  {
    assert v.claims[k] in v.claims;
  }

  lemma IdleHasNoRoutes(vs: seq<View>, routes: seq<int>, i: nat)
    requires RoutesOk(vs, routes) && i < |vs|
    ensures |routes| == ROUTES
    ensures vs[i].armed == {} ==> forall id :: 0 <= id < ROUTES ==> routes[id] != i
  {
  }
}
