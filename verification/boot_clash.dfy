/** Two saved modules with one command: a boot restore takes both, and the command reaches both. */
module BootClash {
  import opened Arena
  import opened Arithmetic
  import opened BootRestore
  import opened BuddyAllocator
  import opened BuddyBlocks
  import opened BuddyLists
  import opened BuddyRoom
  import opened Bytes
  import opened CommandNames
  import opened Device
  import FlashFormat
  import opened Loading
  import opened Registry
  import opened Resources
  import opened Slots
  import opened Supervisor

  /** A 16-byte field holding two characters. */
  function Field(a: Byte, b: Byte): (f: seq<Byte>)
    ensures |f| == 16
  {
    [a, b] + seq(14, _ => 0)
  }

  /** One byte of text, one of bss, the command "go", and a name of its own. */
  function GoModule(name: Byte): Image {
    Plain([0], 1, 1, Field(0x67, 0x6F), Field(0x6D, name))
  }

  /** A pool of eight units, and heap and stack that fit in one of them. */
  ghost predicate Roomy(s: Site) {
    s.pool.top == 3 && 0 < s.layout.Total() <= Power2(s.pool.minOrder)
  }

  lemma UnitClass(s: Site)
    requires Roomy(s)
    ensures IsLevelFor(s.pool.minOrder, 1, 0) && IsLevelFor(s.pool.minOrder, s.layout.Total(), 0)
  {
  }

  lemma UnitsInPool(x: nat)
    requires x < 8
    ensures InPool(Block(0, x), 3)
  {
    assert Ancestor(x, 3) == x / 2 / 2 / 2;
  }

  /** Three different free units are room for three. */
  lemma ThreeUnits(live: set<Block>, x: nat, y: nat, z: nat)
    requires x < 8 && y < 8 && z < 8 && x != y && x != z && y != z
    requires forall l <- live :: l.level == 0 && l.index != x && l.index != y && l.index != z
    ensures Room(live, 3, [0, 0, 0])
  {
    var items := [Block(0, x), Block(0, y), Block(0, z)];
    UnitsInPool(x);
    UnitsInPool(y);
    UnitsInPool(z);
    assert SideBySide(live, 3, items) && OfLevels(items, [0, 0, 0]);
  }

  /** The first unit from here on that is none of three. */
  function NextUnit(from: nat, a: nat, b: nat, c: nat): (x: nat)
    ensures from <= x && x != a && x != b && x != c
  {
    if from != a && from != b && from != c then from
    else if from + 1 != a && from + 1 != b && from + 1 != c then from + 1
    else if from + 2 != a && from + 2 != b && from + 2 != c then from + 2
    else from + 3
  }

  /** Eight units less three leave three. */
  lemma StillRoom(live: set<Block>, t: Block, d: Block, h: Block)
    requires live == {t, d, h} && t.level == d.level == h.level == 0
    ensures Room(live, 3, [0, 0, 0])
  {
    var x := NextUnit(0, t.index, d.index, h.index);
    var y := NextUnit(x + 1, t.index, d.index, h.index);
    var z := NextUnit(y + 1, t.index, d.index, h.index);
    assert z <= 5;
    ThreeUnits(live, x, y, z);
  }

  /** With room for three units every such module is admitted. */
  lemma GoIsAdmitted(s: Site, live: set<Block>, held: iset<Pin>, name: Byte)
    requires Roomy(s) && Room(live, 3, [0, 0, 0])
    ensures GoModule(name).WellMade() && Answer(s, live, held, GoModule(name)) == Ok
  {
    hide Room, IsLevelFor, FitsAlone, AllFitAlone, VerdictFor, Answer, Power2, Plain, Image.WellMade;
    GoIsValid(s, live, held, name);
    UnitClass(s);
    assert CanAcquire(s.pool, live, 1, 1, s.layout.Total());
    WouldFitIsNecessary(s.pool, live, 1, 1, s.layout.Total());
  }

  lemma GoIsValid(s: Site, live: set<Block>, held: iset<Pin>, name: Byte)
    ensures GoModule(name).WellMade() && GoModule(name).TextBytes() == GoModule(name).DataBytes() == 1
    ensures VerdictFor(s, live, held, GoModule(name)) == Ok <==> AllFit(s, live, GoModule(name))
  {
    hide VerdictFor, AllFit, Image.WellMade;
    PlainIsValid(s, live, held, GoModule(name), [0], 1);
  }

  /** The blocks of the first are single units. */
  lemma UnitsOnly(s: Site, blocks: set<Block>, name: Byte)
    requires Roomy(s) && Classed(s, blocks, GoModule(name))
    ensures Room(blocks, 3, [0, 0, 0])
  {
    hide IsLevelFor, Room, Power2, VerdictFor, AllFit, GoModule, Image.WellMade;
    UnitClass(s);
    GoIsValid(s, {}, iset{}, name);
    var image := GoModule(name);
    var t: Block, d: Block, h: Block :|
      blocks == {t, d, h} && IsLevelFor(s.pool.minOrder, image.TextBytes(), t.level)
      && IsLevelFor(s.pool.minOrder, image.DataBytes(), d.level) && IsLevelFor(s.pool.minOrder, s.layout.Total(), h.level);
    LevelUnique(s.pool.minOrder, 1, t.level, 0);
    LevelUnique(s.pool.minOrder, 1, d.level, 0);
    LevelUnique(s.pool.minOrder, s.layout.Total(), h.level, 0);
    StillRoom(blocks, t, d, h);
  }

  /** The first comes up in the first of two empty slots, and leaves room for the second. */
  lemma FirstComes(s: Site, before: Moment, after: Moment)
    requires Roomy(s) && Usable(Stored(GoModule(1))) && Turn(s, before, Stored(GoModule(1)), after)
    requires |before.vs| == 2 && before.vs[0].state == before.vs[1].state == Empty && before.live == {}
    ensures Comes(s, before, Stored(GoModule(1)))
    ensures |after.vs| == 2 && after.vs[0].state != Empty && after.vs[1].state == Empty && Room(after.live, 3, [0, 0, 0])
  {
    hide Room, Answer, Classed, HeldFrom, GoModule, Image.WellMade, FirstFree;
    ThreeUnits({}, 0, 1, 2);
    GoIsAdmitted(s, {}, HeldFrom(s.board, before.vs, 0), 1);
    FirstFreeIs(before.vs, 0);
    assert Hosts(s, after, 0, GoModule(1)) && after.vs[1] == before.vs[1];
    UnitsOnly(s, after.vs[0].blocks, 1);
    assert after.live == after.vs[0].blocks;
  }

  lemma SecondComes(s: Site, before: Moment)
    requires Roomy(s) && Usable(Stored(GoModule(2)))
    requires |before.vs| == 2 && before.vs[0].state != Empty && before.vs[1].state == Empty && Room(before.live, 3, [0, 0, 0])
    ensures Comes(s, before, Stored(GoModule(2)))
  {
    hide Room, Answer, HeldFrom, GoModule, Image.WellMade, FirstFree;
    FirstFreeIs(before.vs, 1);
    GoIsAdmitted(s, before.live, HeldFrom(s.board, before.vs, 1), 2);
  }

  /** Both come up from an empty table of two slots. */
  lemma BothCome(s: Site, moments: seq<Moment>, saved: seq<Saved>)
    requires Roomy(s) && saved == [Stored(GoModule(1)), Stored(GoModule(2))]
    requires (forall j :: 0 <= j < |saved| ==> Usable(saved[j])) && Turns(s, moments, saved)
    requires |moments[0].vs| == 2 && moments[0].vs[0].state == moments[0].vs[1].state == Empty && moments[0].live == {}
    ensures !NoClash(s, moments, saved, 2)
  {
    hide Room, Turn, Comes, Shared, GoModule, Roomy, Usable;
    assert Usable(saved[0]) && Usable(saved[1]) && Turn(s, moments[0], saved[0], moments[1]);
    FirstComes(s, moments[0], moments[1]);
    SecondComes(s, moments[1]);
    SameGo(1, 2);
    BothAnswer(s, moments, saved);
  }

  lemma BothAnswer(s: Site, moments: seq<Moment>, saved: seq<Saved>)
    requires saved == [Stored(GoModule(1)), Stored(GoModule(2))] && |moments| == 3
    requires forall j :: 0 <= j < |saved| ==> Usable(saved[j])
    requires Comes(s, moments[0], saved[0]) && Comes(s, moments[1], saved[1])
    requires GoModule(1).WellMade() && GoModule(2).WellMade() && Shared(GoModule(1).Command(), GoModule(2).Command())
    ensures !NoClash(s, moments, saved, 2)
  {
    hide Comes, Shared, GoModule, Image.WellMade, Image.Command;
    assert Clash(s, moments, saved, 0, 1);
  }

  lemma SameGo(a: Byte, b: Byte)
    ensures GoModule(a).WellMade() && GoModule(b).WellMade()
    ensures Shared(GoModule(a).Command(), GoModule(b).Command())
  {
    GoIsWellMade(a);
    GoIsWellMade(b);
  }

  /** On any board, from power-on: two saved modules, different names, one command; it reaches both. */
  method ClashAtBoot(hw: Hardware) returns (h: Host)
    requires hw.Sane() && hw.count == 2 && hw.maxOrder == hw.minOrder + 3 && 0 < hw.layout.Total() <= Power2(hw.minOrder)
    ensures fresh(h) && h.Ready() && !Unambiguous(h.Commands())
  {
    hide Power2, NoClash, AccountedFor, Host.RestoredFrom, Unambiguous, GoModule, Turns, Silent, Usable, Hardware.Sane,
      Host.Ready, Host.Inv, Host.Records, Host.Now, Host.Here, Host.Commands, Host.ResidentsKept, FromNothing;
    h := PowerOn(hw);
    PristineMoment(h);
    TwoEmpty(h);
    var saved := [Stored(GoModule(1)), Stored(GoModule(2))];
    BothUsable(saved);
    ghost var moments := h.Restore(saved, 0);
    BothCome(h.Here(), moments, saved);
  }

  lemma TwoEmpty(h: Host)
    requires |h.armed| == |h.slots| == 2 && FromNothing(h.Now())
    ensures var at := h.Now(); |at.vs| == 2 && at.vs[0].state == at.vs[1].state == Empty && at.live == {}
  {
  }

  lemma BothUsable(saved: seq<Saved>)
    requires saved == [Stored(GoModule(1)), Stored(GoModule(2))]
    ensures forall j :: 0 <= j < |saved| ==> Usable(saved[j])
  {
    hide GoModule;
    GoIsWellMade(1);
    GoIsWellMade(2);
  }

  lemma GoIsWellMade(name: Byte)
    ensures GoModule(name).WellMade()
  {
    PlainIsValid(Site(Board([], [], []), Layout(0, 0, 0), Pool(1, 0, 0)), {}, iset{}, GoModule(name), [0], 1);
  }
}
