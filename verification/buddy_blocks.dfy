/**
 The geometry of a binary buddy pool, and why its free set is canonical.

 A pool of 2^top units is a tree: block `index` of a level covers the units whose
 `index`-th ancestor it is. Nothing here knows about lists or memory: the allocator
 keeps `Partition` as its invariant, and everything else follows.
 */
module BuddyBlocks {
  import opened Arithmetic

  /** The naturally aligned run of 2^level units numbered `index` at its level. */
  datatype Block = Block(level: nat, index: nat)

  function Ancestor(unit: nat, level: nat): nat
    decreases level
  {
    if level == 0 then unit else Ancestor(unit, level - 1) / 2
  }

  predicate Covers(b: Block, unit: nat) {
    Ancestor(unit, b.level) == b.index
  }

  predicate InPool(b: Block, top: nat) {
    b.level <= top && Ancestor(b.index, top - b.level) == 0
  }

  /** `outer` covers all of `inner`. */
  predicate Encloses(outer: Block, inner: Block) {
    inner.level <= outer.level && Ancestor(inner.index, outer.level - inner.level) == outer.index
  }

  function Parent(b: Block): Block {
    Block(b.level + 1, b.index / 2)
  }

  function Lower(b: Block): Block
    requires b.level > 0
  {
    Block(b.level - 1, 2 * b.index)
  }

  function Upper(b: Block): Block
    requires b.level > 0
  {
    Block(b.level - 1, 2 * b.index + 1)
  }

  function Buddy(b: Block): Block {
    Block(b.level, if b.index % 2 == 0 then b.index + 1 else b.index - 1)
  }

  /** The lowest unit of a block: halving to the lower child does not move it. */
  function FirstUnit(b: Block): nat
    decreases b.level
  {
    if b.level == 0 then b.index else FirstUnit(Lower(b))
  }

  lemma LowerFirstUnit(b: Block)
    requires b.level > 0
    ensures FirstUnit(Lower(b)) == FirstUnit(b)
  {
  }

  // ---- arithmetic of the tree ------------------------------------------

  lemma {:induction false} AncestorCompose(unit: nat, a: nat, b: nat)
    ensures Ancestor(Ancestor(unit, a), b) == Ancestor(unit, a + b)
    decreases b
  {
    if b > 0 {
      AncestorCompose(unit, a, b - 1);
    }
  }

  lemma {:induction false} FirstUnitIsProduct(b: Block)
    ensures FirstUnit(b) == b.index * Power2(b.level)
    decreases b.level
  {
    if b.level > 0 {
      FirstUnitIsProduct(Lower(b));
    }
  }

  lemma {:induction false} FirstUnitCovered(b: Block)
    ensures Covers(b, FirstUnit(b))
    decreases b.level
  {
    if b.level > 0 {
      FirstUnitCovered(Lower(b));
    }
  }

  lemma {:induction false} NextFirstUnit(level: nat, index: nat)
    ensures FirstUnit(Block(level, index + 1)) == FirstUnit(Block(level, index)) + Power2(level)
    decreases level
  {
    if level > 0 {
      NextFirstUnit(level - 1, 2 * index);
      NextFirstUnit(level - 1, 2 * index + 1);
    }
  }

  /** What `Covers` means as a range of unit numbers. */
  lemma {:induction false} CoversIsInterval(b: Block, unit: nat)
    ensures Covers(b, unit) <==> FirstUnit(b) <= unit < FirstUnit(b) + Power2(b.level)
    decreases b.level
  {
    if b.level > 0 {
      CoversIsInterval(Lower(b), unit);
      CoversIsInterval(Upper(b), unit);
      NextFirstUnit(b.level - 1, 2 * b.index);
    }
  }

  /** Every block in the pool is a range of the pool's units. */
  lemma InPoolIsInterval(b: Block, top: nat)
    requires InPool(b, top)
    ensures FirstUnit(b) + Power2(b.level) <= Power2(top)
  {
    var last := FirstUnit(b) + Power2(b.level) - 1;
    CoversIsInterval(b, last);
    AncestorCompose(last, b.level, top - b.level);
    CoversIsInterval(Block(top, 0), last);
    FirstUnitIsProduct(Block(top, 0));
  }

  lemma EnclosesMeansCovers(outer: Block, inner: Block, unit: nat)
    requires Encloses(outer, inner) && Covers(inner, unit)
    ensures Covers(outer, unit)
  {
    AncestorCompose(unit, inner.level, outer.level - inner.level);
  }

  /** Two blocks that share a unit are nested. */
  lemma SharedUnitNests(a: Block, b: Block, unit: nat)
    requires Covers(a, unit) && Covers(b, unit) && a.level <= b.level
    ensures Encloses(b, a)
  {
    AncestorCompose(unit, a.level, b.level - a.level);
  }

  // ---- partitions of the pool ------------------------------------------

  /** Every unit of the pool lies in exactly one of the blocks. */
  ghost predicate Partition(bs: set<Block>, top: nat) {
    && (forall b <- bs :: InPool(b, top))
    && (forall unit: nat :: Ancestor(unit, top) == 0 ==> exists b <- bs :: Covers(b, unit))
    && (forall a <- bs, b <- bs, unit: nat :: Covers(a, unit) && Covers(b, unit) ==> a == b)
  }

  ghost predicate NoBuddies(free: set<Block>, top: nat) {
    forall b <- free :: b.level < top ==> Buddy(b) !in free
  }

  /** The allocator's invariant on its two sets of blocks. */
  ghost predicate Canonical(live: set<Block>, free: set<Block>, top: nat) {
    live !! free && Partition(live + free, top) && NoBuddies(free, top)
  }

  /** No unit of `b` is in use. */
  ghost predicate WhollyFree(live: set<Block>, b: Block) {
    forall l <- live, unit: nat :: Covers(b, unit) ==> !Covers(l, unit)
  }

  lemma SplitPartition(bs: set<Block>, b: Block, top: nat)
    requires Partition(bs, top) && b in bs && b.level > 0
    ensures Partition(bs - {b} + {Lower(b), Upper(b)}, top)
    ensures Lower(b) !in bs && Upper(b) !in bs
  {
    SplitCovers(bs, b, top);
    SplitUnique(bs, b, top);
    var cut := bs - {b} + {Lower(b), Upper(b)};
    forall x <- cut
      ensures InPool(x, top)
    {
      if x !in bs {
        AncestorCompose(x.index, 1, top - b.level);
        assert Ancestor(x.index, 1) == b.index;
      }
    }
  }

  lemma SplitCovers(bs: set<Block>, b: Block, top: nat)
    requires Partition(bs, top) && b in bs && b.level > 0
    ensures forall unit: nat :: Ancestor(unit, top) == 0 ==> exists x <- bs - {b} + {Lower(b), Upper(b)} :: Covers(x, unit)
  {
    var cut := bs - {b} + {Lower(b), Upper(b)};
    forall unit: nat | Ancestor(unit, top) == 0
      ensures exists x <- cut :: Covers(x, unit)
    {
      var x :| x in bs && Covers(x, unit);
      if x == b {
        assert Covers(Lower(b), unit) || Covers(Upper(b), unit);
      } else {
        assert x in cut;
      }
    }
  }

  lemma SplitUnique(bs: set<Block>, b: Block, top: nat)
    requires Partition(bs, top) && b in bs && b.level > 0
    ensures Lower(b) !in bs && Upper(b) !in bs
    ensures forall x <- bs - {b} + {Lower(b), Upper(b)}, y <- bs - {b} + {Lower(b), Upper(b)}, unit: nat ::
              Covers(x, unit) && Covers(y, unit) ==> x == y
  {
    NotInPartition(bs, b, Lower(b), top);
    NotInPartition(bs, b, Upper(b), top);
    var cut := bs - {b} + {Lower(b), Upper(b)};
    forall x <- cut, y <- cut, unit: nat | Covers(x, unit) && Covers(y, unit)
      ensures x == y
    {
      var x', y' := if x in bs then x else b, if y in bs then y else b;
      assert Covers(x', unit) && Covers(y', unit);
      assert x' == y';
    }
  }

  /** A part of a block of a partition is not itself one. */
  lemma NotInPartition(bs: set<Block>, b: Block, child: Block, top: nat)
    requires Partition(bs, top) && b in bs && b.level > 0 && child in {Lower(b), Upper(b)}
    ensures child !in bs
  {
    FirstUnitCovered(child);
    assert Covers(b, FirstUnit(child));
  }

  lemma MergePartition(bs: set<Block>, b: Block, top: nat)
    requires Partition(bs, top) && b.level > 0 && Lower(b) in bs && Upper(b) in bs && b.level <= top
    ensures Partition(bs - {Lower(b), Upper(b)} + {b}, top)
    ensures b !in bs
  {
    var merged := bs - {Lower(b), Upper(b)} + {b};
    FirstUnitCovered(Lower(b));
    assert Covers(b, FirstUnit(Lower(b)));
    forall unit: nat | Ancestor(unit, top) == 0
      ensures exists x <- merged :: Covers(x, unit)
    {
      var x :| x in bs && Covers(x, unit);
      assert x == Lower(b) || x == Upper(b) ==> Covers(b, unit);
      assert (if x == Lower(b) || x == Upper(b) then b else x) in merged;
    }
    AncestorCompose(Lower(b).index, 1, top - b.level);
    assert Ancestor(Lower(b).index, 1) == b.index;
    forall x <- merged, y <- merged, unit: nat | Covers(x, unit) && Covers(y, unit)
      ensures x == y
    {
      assert Covers(b, unit) ==> Covers(Lower(b), unit) || Covers(Upper(b), unit);
    }
  }

  /** Blocks of a partition start at different units. */
  lemma FirstUnitsDistinct(bs: set<Block>, a: Block, b: Block, top: nat)
    requires Partition(bs, top) && a in bs && b in bs && FirstUnit(a) == FirstUnit(b)
    ensures a == b
  {
    FirstUnitCovered(a);
    FirstUnitCovered(b);
  }

  // ---- the free set is a function of the live set ----------------------

  /** A block no unit of which is in use lies inside one free block. */
  lemma {:induction false} WhollyFreeIsEnclosed(live: set<Block>, free: set<Block>, b: Block, top: nat) returns (f: Block)
    requires Canonical(live, free, top) && InPool(b, top) && WhollyFree(live, b)
    ensures f in free && Encloses(f, b)
    decreases b.level
  {
    if b.level == 0 {
      f :| f in live + free && Covers(f, b.index);
      assert Covers(b, b.index);
    } else {
      ChildrenInherit(live, b, top);
      var f0 := WhollyFreeIsEnclosed(live, free, Lower(b), top);
      var f1 := WhollyFreeIsEnclosed(live, free, Upper(b), top);
      if f0.level >= b.level {
        f := f0;
        StepUp(f0, Lower(b));
      } else if f1.level >= b.level {
        f := f1;
        StepUp(f1, Upper(b));
      } else {
        assert false;
      }
    }
  }

  lemma StepUp(f: Block, child: Block)
    requires Encloses(f, child) && f.level > child.level
    ensures Encloses(f, Parent(child))
  {
    AncestorCompose(child.index, 1, f.level - child.level - 1);
    assert Ancestor(child.index, 1) == child.index / 2;
  }

  lemma ChildrenInherit(live: set<Block>, b: Block, top: nat)
    requires InPool(b, top) && WhollyFree(live, b) && b.level > 0
    ensures InPool(Lower(b), top) && WhollyFree(live, Lower(b))
    ensures InPool(Upper(b), top) && WhollyFree(live, Upper(b))
  {
    AncestorCompose(2 * b.index, 1, top - b.level);
    AncestorCompose(2 * b.index + 1, 1, top - b.level);
    assert Ancestor(2 * b.index, 1) == b.index && Ancestor(2 * b.index + 1, 1) == b.index;
    assert forall unit: nat :: Covers(Lower(b), unit) || Covers(Upper(b), unit) ==> Covers(b, unit);
  }

  lemma FreeIsWhollyFree(live: set<Block>, free: set<Block>, b: Block, top: nat)
    requires Canonical(live, free, top) && b in free
    ensures WhollyFree(live, b)
  {
    assert forall l <- live :: l in live + free && l != b;
  }

  /** Being wholly free, and not being half of something wholly free. */
  ghost predicate MaximalFree(live: set<Block>, b: Block, top: nat) {
    && InPool(b, top)
    && WhollyFree(live, b)
    && (b.level < top ==> !WhollyFree(live, Parent(b)))
  }

  /** The free blocks are exactly the maximal aligned blocks that touch nothing live. */
  lemma FreeSetIsCanonical(live: set<Block>, free: set<Block>, b: Block, top: nat)
    requires Canonical(live, free, top)
    ensures b in free <==> MaximalFree(live, b, top)
  {
    if b in free {
      FreeIsWhollyFree(live, free, b, top);
      if b.level < top && WhollyFree(live, Parent(b)) {
        ParentInPool(b, top);
        var f := WhollyFreeIsEnclosed(live, free, Parent(b), top);
        FirstUnitCovered(b);
        assert Covers(Parent(b), FirstUnit(b));
        EnclosesMeansCovers(f, Parent(b), FirstUnit(b));
        assert false;
      }
    }
    if MaximalFree(live, b, top) {
      var f := WhollyFreeIsEnclosed(live, free, b, top);
      if f != b {
        FreeIsWhollyFree(live, free, f, top);
        StepUp(f, b);
        forall l <- live, unit: nat | Covers(Parent(b), unit)
          ensures !Covers(l, unit)
        {
          EnclosesMeansCovers(f, Parent(b), unit);
        }
      }
    }
  }

  lemma ParentInPool(b: Block, top: nat)
    requires InPool(b, top) && b.level < top
    ensures InPool(Parent(b), top)
  {
    AncestorCompose(b.index, 1, top - b.level - 1);
    assert Ancestor(b.index, 1) == b.index / 2;
  }

  /** History does not matter: equal live sets mean equal free sets. */
  lemma FreeSetDependsOnLiveOnly(live: set<Block>, free0: set<Block>, free1: set<Block>, top: nat)
    requires Canonical(live, free0, top) && Canonical(live, free1, top)
    ensures free0 == free1
  {
    forall b: Block
      ensures b in free0 <==> b in free1
    {
      FreeSetIsCanonical(live, free0, b, top);
      FreeSetIsCanonical(live, free1, b, top);
    }
  }

  /** With everything given back, the pool is one block again. */
  lemma EmptyPoolIsWhole(free: set<Block>, top: nat)
    requires Canonical({}, free, top)
    ensures free == {Block(top, 0)}
  {
    WholePoolCanonical(top);
    FreeSetDependsOnLiveOnly({}, free, {Block(top, 0)}, top);
  }

  lemma WholePoolCanonical(top: nat)
    ensures Canonical({}, {Block(top, 0)}, top)
  {
    var whole := Block(top, 0);
    assert {} + {whole} == {whole};
    forall unit: nat | Ancestor(unit, top) == 0
      ensures exists b <- {whole} :: Covers(b, unit)
    {
      assert Covers(whole, unit);
    }
  }

  /** A request fails exactly when no aligned block of its level is wholly free. */
  lemma SomeFreeBlockIffFits(live: set<Block>, free: set<Block>, level: nat, top: nat)
    requires Canonical(live, free, top)
    ensures (exists f <- free :: f.level >= level)
       <==> (exists b: Block :: b.level == level && InPool(b, top) && WhollyFree(live, b))
  {
    if exists f <- free :: f.level >= level {
      var f :| f in free && f.level >= level;
      FreeIsWhollyFree(live, free, f, top);
      var b := LowestInside(live, f, level, top);
      assert b.level == level && InPool(b, top) && WhollyFree(live, b);
    }
    if b: Block :| b.level == level && InPool(b, top) && WhollyFree(live, b) {
      var f := WhollyFreeIsEnclosed(live, free, b, top);
    }
  }

  lemma {:induction false} LowestInside(live: set<Block>, f: Block, level: nat, top: nat) returns (b: Block)
    requires InPool(f, top) && WhollyFree(live, f) && level <= f.level
    ensures b.level == level && InPool(b, top) && WhollyFree(live, b)
    decreases f.level
  {
    if f.level == level {
      b := f;
    } else {
      ChildrenInherit(live, f, top);
      b := LowestInside(live, Lower(f), level, top);
    }
  }

  // ---- best fit ---------------------------------------------------------

  ghost predicate SmallestFit(free: set<Block>, level: nat, f: Block) {
    f in free && f.level >= level && forall g <- free :: g.level >= level ==> f.level <= g.level
  }

  /** `b` is the low end of the smallest free block that could hold it. */
  ghost predicate CutFromSmallest(free: set<Block>, b: Block) {
    exists f: Block :: SmallestFit(free, b.level, f) && Encloses(f, b) && FirstUnit(f) == FirstUnit(b)
  }

  // ---- conservation ----------------------------------------------------

  ghost function TotalWidth(bs: set<Block>): nat {
    if bs == {} then 0 else
      var b :| b in bs;
      Power2(b.level) + TotalWidth(bs - {b})
  }

  lemma {:induction false} TotalWidthRemove(bs: set<Block>, b: Block)
    requires b in bs
    ensures TotalWidth(bs) == Power2(b.level) + TotalWidth(bs - {b})
    decreases bs
  {
    var x :| x in bs && TotalWidth(bs) == Power2(x.level) + TotalWidth(bs - {x});
    if x != b {
      TotalWidthRemove(bs - {x}, b);
      TotalWidthRemove(bs - {b}, x);
      assert bs - {x} - {b} == bs - {b} - {x};
    }
  }

  lemma TotalWidthAdd(bs: set<Block>, b: Block)
    requires b !in bs
    ensures TotalWidth(bs + {b}) == Power2(b.level) + TotalWidth(bs)
  {
    TotalWidthRemove(bs + {b}, b);
    assert bs + {b} - {b} == bs;
  }
}
