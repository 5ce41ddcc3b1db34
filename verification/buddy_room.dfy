/**
 Taking the smallest sufficient free block loses nothing: if several aligned blocks can be
 placed side by side in a canonical pool, the rest of them can still be placed after a best
 fit has taken the first. Equal subtrees of free memory can be exchanged, so any placement
 can be rearranged until its first block is the one the allocator cuts.
 */
module BuddyRoom {
  import opened Arithmetic
  import opened BuddyBlocks

  /** No unit in common. */
  predicate Clear(a: Block, b: Block) {
    FirstUnit(a) + Power2(a.level) <= FirstUnit(b) || FirstUnit(b) + Power2(b.level) <= FirstUnit(a)
  }

  lemma ClearIff(a: Block, b: Block)
    ensures Clear(a, b) <==> forall unit: nat :: Covers(a, unit) ==> !Covers(b, unit)
  {
    hide FirstUnit, Power2;
    forall unit: nat
      ensures Covers(a, unit) <==> FirstUnit(a) <= unit < FirstUnit(a) + Power2(a.level)
      ensures Covers(b, unit) <==> FirstUnit(b) <= unit < FirstUnit(b) + Power2(b.level)
    {
      CoversIsInterval(a, unit);
      CoversIsInterval(b, unit);
    }
    var at := if FirstUnit(a) < FirstUnit(b) then FirstUnit(b) else FirstUnit(a);
    assert !Clear(a, b) ==> Covers(a, at) && Covers(b, at);
  }

  lemma ClearOrInside(a: Block, b: Block)
    requires a.level <= b.level
    ensures Clear(a, b) || Encloses(b, a)
  {
    ClearIff(a, b);
    if unit: nat :| Covers(a, unit) && Covers(b, unit) {
      SharedUnitNests(a, b, unit);
    }
  }

  lemma InsideIsInterval(outer: Block, inner: Block)
    requires Encloses(outer, inner)
    ensures FirstUnit(outer) <= FirstUnit(inner)
    ensures FirstUnit(inner) + Power2(inner.level) <= FirstUnit(outer) + Power2(outer.level)
  {
    hide FirstUnit, Power2;
    var first, last := FirstUnit(inner), FirstUnit(inner) + Power2(inner.level) - 1;
    CoversIsInterval(inner, first);
    CoversIsInterval(inner, last);
    EnclosesMeansCovers(outer, inner, first);
    EnclosesMeansCovers(outer, inner, last);
    CoversIsInterval(outer, first);
    CoversIsInterval(outer, last);
  }

  lemma InsideInside(a: Block, b: Block, c: Block)
    requires Encloses(a, b) && Encloses(b, c)
    ensures Encloses(a, c)
  {
    AncestorCompose(c.index, b.level - c.level, a.level - b.level);
  }

  lemma FreeInside(live: set<Block>, outer: Block, inner: Block, top: nat)
    requires Encloses(outer, inner) && InPool(outer, top) && WhollyFree(live, outer)
    ensures InPool(inner, top) && WhollyFree(live, inner)
  {
    AncestorCompose(inner.index, outer.level - inner.level, top - outer.level);
    forall l <- live, unit: nat | Covers(inner, unit)
      ensures !Covers(l, unit)
    {
      EnclosesMeansCovers(outer, inner, unit);
    }
  }

  // ---- moving a block to the same place in another subtree ---------------

  function Moved(x: Block, from: Block, to: Block): (y: Block)
    requires from.level == to.level && Encloses(from, x)
    ensures y.level == x.level
    decreases from.level - x.level
  {
    if x.level == from.level then to
    else
      StepUp(from, x);
      Block(x.level, 2 * Moved(Parent(x), from, to).index + x.index % 2)
  }

  lemma ChildFirstUnit(x: Block)
    ensures FirstUnit(x) == FirstUnit(Parent(x)) + (if x.index % 2 == 1 then Power2(x.level) else 0)
  {
    hide FirstUnit, Power2;
    LowerFirstUnit(Parent(x));
    var k := x.index / 2;
    assert Lower(Parent(x)) == Block(x.level, 2 * k);
    if x.index % 2 == 1 {
      assert x == Block(x.level, 2 * k + 1);
      NextFirstUnit(x.level, 2 * k);
    } else {
      assert x == Block(x.level, 2 * k);
    }
  }

  lemma {:induction false} MovedTranslates(x: Block, from: Block, to: Block)
    requires from.level == to.level && Encloses(from, x)
    ensures Encloses(to, Moved(x, from, to))
    ensures FirstUnit(Moved(x, from, to)) + FirstUnit(from) == FirstUnit(x) + FirstUnit(to)
    decreases from.level - x.level
  {
    hide FirstUnit, Power2;
    var y := Moved(x, from, to);
    if x.level < from.level {
      StepUp(from, x);
      MovedTranslates(Parent(x), from, to);
      ChildFirstUnit(x);
      ChildFirstUnit(y);
      AncestorCompose(y.index, 1, from.level - y.level - 1);
      assert Ancestor(y.index, 1) == Parent(y).index;
    }
  }

  /** `x` is inside `s` or clear of it. */
  predicate Tame(s: Block, x: Block) {
    Encloses(s, x) || Clear(s, x)
  }

  /** Two equal subtrees exchanged, whatever lies in them moving along. */
  function Swapped(x: Block, s: Block, t: Block): (y: Block)
    requires s.level == t.level
    ensures y.level == x.level
  {
    if Encloses(s, x) then Moved(x, s, t) else if Encloses(t, x) then Moved(x, t, s) else x
  }

  lemma SwappedPlace(x: Block, s: Block, t: Block)
    requires s.level == t.level && Clear(s, t) && Tame(s, x) && Tame(t, x)
    ensures var y := Swapped(x, s, t);
            if Encloses(s, x) then Encloses(t, y) && FirstUnit(y) + FirstUnit(s) == FirstUnit(x) + FirstUnit(t)
            else if Encloses(t, x) then Encloses(s, y) && FirstUnit(y) + FirstUnit(t) == FirstUnit(x) + FirstUnit(s)
            else y == x && Clear(s, x) && Clear(t, x)
  {
    hide FirstUnit, Power2;
    if Encloses(s, x) {
      MovedTranslates(x, s, t);
    } else if Encloses(t, x) {
      MovedTranslates(x, t, s);
    }
  }

  lemma SwappedClear(x: Block, y: Block, s: Block, t: Block)
    requires s.level == t.level && Clear(s, t) && Clear(x, y)
    requires Tame(s, x) && Tame(t, x) && Tame(s, y) && Tame(t, y)
    ensures Clear(Swapped(x, s, t), Swapped(y, s, t))
  {
    hide FirstUnit, Power2, Encloses, Swapped;
    SwappedPlace(x, s, t);
    SwappedPlace(y, s, t);
    var x', y' := Swapped(x, s, t), Swapped(y, s, t);
    if Encloses(t, x') { InsideIsInterval(t, x'); }
    if Encloses(s, x') { InsideIsInterval(s, x'); }
    if Encloses(t, y') { InsideIsInterval(t, y'); }
    if Encloses(s, y') { InsideIsInterval(s, y'); }
    if Encloses(s, x) { InsideIsInterval(s, x); }
    if Encloses(t, x) { InsideIsInterval(t, x); }
    if Encloses(s, y) { InsideIsInterval(s, y); }
    if Encloses(t, y) { InsideIsInterval(t, y); }
  }

  // ---- several blocks side by side ---------------------------------------

  /** Free aligned blocks of the pool, no two of which meet. */
  ghost predicate SideBySide(live: set<Block>, top: nat, items: seq<Block>) {
    && (forall i :: 0 <= i < |items| ==> InPool(items[i], top) && WhollyFree(live, items[i]))
    && (forall i, j :: 0 <= i < j < |items| ==> Clear(items[i], items[j]))
  }

  ghost predicate SameLevels(xs: seq<Block>, ys: seq<Block>) {
    |xs| == |ys| && forall i :: 0 <= i < |xs| ==> xs[i].level == ys[i].level
  }

  function AllSwapped(items: seq<Block>, s: Block, t: Block): (ys: seq<Block>)
    requires s.level == t.level
    ensures |ys| == |items| && forall i :: 0 <= i < |items| ==> ys[i] == Swapped(items[i], s, t)
  {
    seq(|items|, i requires 0 <= i < |items| => Swapped(items[i], s, t))
  }

  lemma SwapKeeps(live: set<Block>, top: nat, items: seq<Block>, s: Block, t: Block)
    requires SideBySide(live, top, items) && s.level == t.level && Clear(s, t)
    requires InPool(s, top) && WhollyFree(live, s) && InPool(t, top) && WhollyFree(live, t)
    requires forall i :: 0 <= i < |items| ==> Tame(s, items[i]) && Tame(t, items[i])
    ensures SideBySide(live, top, AllSwapped(items, s, t)) && SameLevels(items, AllSwapped(items, s, t))
  {
    hide FirstUnit, Power2, WhollyFree, InPool, Swapped, Encloses, Clear;
    var ys := AllSwapped(items, s, t);
    forall i | 0 <= i < |ys|
      ensures InPool(ys[i], top) && WhollyFree(live, ys[i])
    {
      SwappedPlace(items[i], s, t);
      if Encloses(s, items[i]) {
        FreeInside(live, t, ys[i], top);
      } else if Encloses(t, items[i]) {
        FreeInside(live, s, ys[i], top);
      }
    }
    forall i, j | 0 <= i < j < |ys|
      ensures Clear(ys[i], ys[j])
    {
      SwappedClear(items[i], items[j], s, t);
    }
  }

  /** A subtree around one item is tame for all the others. */
  lemma TameAround(s: Block, a: Block, x: Block)
    requires Encloses(s, a) && Clear(a, x)
    ensures Tame(s, x)
  {
    hide FirstUnit, Power2, Clear;
    if x.level <= s.level {
      ClearOrInside(x, s);
      ClearSymmetric(x, s);
    } else {
      ClearOrInside(s, x);
      if Encloses(x, s) {
        InsideInside(x, s, a);
        NotClearInside(x, a);
        ClearSymmetric(a, x);
      }
    }
  }

  lemma ClearSymmetric(a: Block, b: Block)
    ensures Clear(a, b) <==> Clear(b, a)
  {
  }

  lemma NotClearInside(outer: Block, inner: Block)
    requires Encloses(outer, inner)
    ensures !Clear(outer, inner)
  {
    hide FirstUnit, Power2;
    InsideIsInterval(outer, inner);
  }

  lemma HalfClear(g: Block)
    requires g.level > 0
    ensures Clear(Upper(g), Lower(g)) && Encloses(g, Lower(g)) && Encloses(g, Upper(g))
    ensures FirstUnit(Lower(g)) == FirstUnit(g)
  {
    hide FirstUnit, Power2;
    LowerFirstUnit(g);
    NextFirstUnit(g.level - 1, 2 * g.index);
    assert Ancestor(2 * g.index, 0) == 2 * g.index && Ancestor(2 * g.index + 1, 0) == 2 * g.index + 1;
    assert Ancestor(2 * g.index, 1) == g.index && Ancestor(2 * g.index + 1, 1) == g.index;
  }

  lemma InWhichHalf(g: Block, a: Block)
    requires Encloses(g, a) && a.level < g.level
    ensures Encloses(Lower(g), a) || Encloses(Upper(g), a)
  {
    AncestorCompose(a.index, g.level - 1 - a.level, 1);
    var up := Ancestor(a.index, g.level - 1 - a.level);
    assert Ancestor(up, 0) == up && Ancestor(up, 1) == up / 2;
  }

  /** The lower half of a block around an item is tame for the others, whichever half the item is in. */
  lemma TameHalf(g: Block, a: Block, x: Block)
    requires g.level > 0 && Encloses(g, a) && a.level < g.level && Clear(a, x)
    ensures Tame(Lower(g), x)
  {
    hide FirstUnit, Power2, Clear;
    HalfClear(g);
    var s := Lower(g);
    if x.level <= s.level {
      ClearOrInside(x, s);
      ClearSymmetric(x, s);
    } else {
      ClearOrInside(s, x);
      if Encloses(x, s) {
        StepUp(x, s);
        assert Parent(s) == g;
        InsideInside(x, g, a);
        NotClearInside(x, a);
        ClearSymmetric(a, x);
      }
    }
  }

  /** Inside a free block the first item can be moved to the low end. */
  lemma {:induction false} Lowered(live: set<Block>, top: nat, items: seq<Block>, g: Block) returns (ys: seq<Block>)
    requires SideBySide(live, top, items) && items != [] && Encloses(g, items[0]) && InPool(g, top) && WhollyFree(live, g)
    ensures SideBySide(live, top, ys) && SameLevels(items, ys)
    ensures Encloses(g, ys[0]) && FirstUnit(ys[0]) == FirstUnit(g)
    decreases g.level
  {
    hide FirstUnit, Power2, WhollyFree, InPool, Swapped, Encloses, Clear, SideBySide;
    var a := items[0];
    if g.level == a.level {
      SameLevelInside(g, a);
      ys := items;
    } else {
      NoHigher(g, a);
      HalfClear(g);
      InWhichHalf(g, a);
      FreeInside(live, g, Lower(g), top);
      FreeInside(live, g, Upper(g), top);
      var us := items;
      if !Encloses(Lower(g), a) {
        us := HalvesExchanged(live, top, items, g);
      }
      ys := Lowered(live, top, us, Lower(g));
      InsideInside(g, Lower(g), ys[0]);
    }
  }

  lemma NoHigher(g: Block, a: Block)
    requires Encloses(g, a) && g.level != a.level
    ensures a.level < g.level
  {
  }

  lemma SameLevelInside(g: Block, a: Block)
    requires Encloses(g, a) && g.level == a.level
    ensures g == a
  {
  }

  lemma HalvesExchanged(live: set<Block>, top: nat, items: seq<Block>, g: Block) returns (us: seq<Block>)
    requires SideBySide(live, top, items) && items != [] && Encloses(g, items[0]) && items[0].level < g.level
    requires InPool(Lower(g), top) && WhollyFree(live, Lower(g)) && InPool(Upper(g), top) && WhollyFree(live, Upper(g))
    requires Encloses(Upper(g), items[0])
    ensures SideBySide(live, top, us) && SameLevels(items, us) && Encloses(Lower(g), us[0])
  {
    hide FirstUnit, Power2, WhollyFree, InPool, Swapped, Clear;
    var a, s, t := items[0], Upper(g), Lower(g);
    HalfClear(g);
    forall i | 0 <= i < |items|
      ensures Tame(s, items[i]) && Tame(t, items[i])
    {
      if i == 0 {
        ClearIn(s, t, a);
      } else {
        TameAround(s, a, items[i]);
        TameHalf(g, a, items[i]);
      }
    }
    SwapKeeps(live, top, items, s, t);
    us := AllSwapped(items, s, t);
    SwappedPlace(a, s, t);
  }

  lemma ClearIn(s: Block, t: Block, a: Block)
    requires Clear(s, t) && Encloses(s, a)
    ensures Clear(t, a)
  {
    hide FirstUnit, Power2;
    InsideIsInterval(s, a);
  }

  /** `around` is the block of this level that encloses `a`. */
  lemma Around(g: Block, a: Block, level: nat) returns (s: Block)
    requires Encloses(g, a) && a.level <= level <= g.level
    ensures s.level == level && Encloses(g, s) && Encloses(s, a)
  {
    s := Block(level, Ancestor(a.index, level - a.level));
    AncestorCompose(a.index, level - a.level, g.level - level);
  }

  lemma FreeBlocksClear(live: set<Block>, free: set<Block>, f: Block, g: Block, top: nat)
    requires Canonical(live, free, top) && f in free && g in free && f != g
    ensures Clear(f, g)
  {
    ClearIff(f, g);
    assert f in live + free && g in live + free;
  }

  /** The first item can be brought into any free block that is large enough but no larger than its own. */
  lemma BroughtInto(live: set<Block>, free: set<Block>, top: nat, items: seq<Block>, f: Block) returns (us: seq<Block>)
    requires Canonical(live, free, top) && SideBySide(live, top, items) && items != []
    requires f in free && f.level >= items[0].level && forall g <- free :: g.level >= items[0].level ==> f.level <= g.level
    ensures SideBySide(live, top, us) && SameLevels(items, us) && Encloses(f, us[0])
  {
    hide FirstUnit, Power2, InPool, Swapped, Clear, Canonical;
    var a := items[0];
    var g := WhollyFreeIsEnclosed(live, free, a, top);
    if g == f {
      return items;
    }
    FreeIsInPool(live, free, f, top);
    FreeIsInPool(live, free, g, top);
    var s := Around(g, a, f.level);
    FreeInside(live, g, s, top);
    FreeBlocksClear(live, free, g, f, top);
    ClearIn(g, f, s);
    ClearSymmetric(f, s);
    forall i | 0 <= i < |items|
      ensures Tame(s, items[i]) && Tame(f, items[i])
    {
      if i > 0 {
        TameAround(s, a, items[i]);
      }
      var h := WhollyFreeIsEnclosed(live, free, items[i], top);
      if h != f {
        FreeBlocksClear(live, free, h, f, top);
        ClearIn(h, f, items[i]);
      }
    }
    SwapKeeps(live, top, items, s, f);
    us := AllSwapped(items, s, f);
    SwappedPlace(a, s, f);
  }

  lemma FreeIsInPool(live: set<Block>, free: set<Block>, f: Block, top: nat)
    requires Canonical(live, free, top) && f in free
    ensures InPool(f, top) && WhollyFree(live, f)
  {
    FreeIsWhollyFree(live, free, f, top);
    assert f in live + free;
  }

  // ---- best fit ----------------------------------------------------------

  /** Room for blocks of these levels at once. */
  ghost predicate Room(live: set<Block>, top: nat, levels: seq<nat>) {
    exists items: seq<Block> :: SideBySide(live, top, items) && OfLevels(items, levels)
  }

  ghost predicate OfLevels(items: seq<Block>, levels: seq<nat>) {
    |items| == |levels| && forall i :: 0 <= i < |items| ==> items[i].level == levels[i]
  }

  /** Whatever had room beside a block of this level has room after a best fit has taken one. */
  lemma BestFitLeavesRoom(live: set<Block>, free: set<Block>, top: nat, levels: seq<nat>, b: Block)
    requires Canonical(live, free, top) && levels != [] && Room(live, top, levels)
    requires b.level == levels[0] && CutFromSmallest(free, b)
    ensures Room(live + {b}, top, levels[1..])
  {
    hide FirstUnit, Power2, InPool, Clear, Canonical, WhollyFree, Encloses;
    var items: seq<Block> :| SideBySide(live, top, items) && OfLevels(items, levels);
    var f: Block :| SmallestFit(free, b.level, f) && Encloses(f, b) && FirstUnit(f) == FirstUnit(b);
    var us := BroughtInto(live, free, top, items, f);
    FreeIsInPool(live, free, f, top);
    var ys := Lowered(live, top, us, f);
    SamePlace(ys[0], b);
    forall i | 0 < i < |ys|
      ensures WhollyFree(live + {b}, ys[i])
    {
      StillFree(live, ys[0], ys[i]);
    }
    assert SideBySide(live + {b}, top, ys[1..]) && OfLevels(ys[1..], levels[1..]);
  }

  lemma SamePlace(a: Block, b: Block)
    requires a.level == b.level && FirstUnit(a) == FirstUnit(b)
    ensures a == b
  {
    FirstUnitCovered(a);
    FirstUnitCovered(b);
  }

  lemma StillFree(live: set<Block>, b: Block, x: Block)
    requires WhollyFree(live, x) && Clear(b, x)
    ensures WhollyFree(live + {b}, x)
  {
    ClearIff(b, x);
  }

  /** The blocks a run of takes got lie side by side. */
  lemma TakenWereRoom(live: set<Block>, top: nat, b: Block, levels: seq<nat>)
    requires InPool(b, top) && WhollyFree(live, b) && Room(live + {b}, top, levels)
    ensures Room(live, top, [b.level] + levels)
  {
    var items: seq<Block> :| SideBySide(live + {b}, top, items) && OfLevels(items, levels);
    forall i | 0 <= i < |items|
      ensures Clear(b, items[i])
    {
      ClearIff(b, items[i]);
      assert b in live + {b};
    }
    var all := [b] + items;
    assert SideBySide(live, top, all) && OfLevels(all, [b.level] + levels);
  }

  lemma NoRoomNeeded(live: set<Block>, top: nat)
    ensures Room(live, top, [])
  {
    assert SideBySide(live, top, []) && OfLevels([], []);
  }

  lemma RoomForEach(live: set<Block>, top: nat, levels: seq<nat>, i: nat) returns (b: Block)
    requires Room(live, top, levels) && i < |levels|
    ensures b.level == levels[i] && InPool(b, top) && WhollyFree(live, b)
  {
    var items: seq<Block> :| SideBySide(live, top, items) && OfLevels(items, levels);
    b := items[i];
  }
}
