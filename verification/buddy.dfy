/**
 mdl/core/buddy.c: the allocator itself, with its list heads, its order side table and
 the link words it keeps in free memory, all updated in place.

 Addresses are naturals and 0 is the null pointer. `live` and `free` are the blocks
 handed out and the blocks listed; `Valid` ties them to the fields.
 */
module BuddyAllocator {
  import opened Arithmetic
  import opened BuddyBlocks
  import opened FreeList
  import opened BuddyLists

  /** The side table records, at the unit each live block starts, that block's order. */
  ghost predicate Recorded(table: seq<nat>, minOrder: nat, live: set<Block>) {
    && (forall b <- live :: FirstUnit(b) < |table| && table[FirstUnit(b)] == minOrder + b.level)
    && (forall u :: 0 <= u < |table| && table[u] != 0 ==> exists b <- live :: FirstUnit(b) == u)
  }

  /** Bit `order` of an offset inverted: `off ^ (1 << order)`. */
  function FlipBit(off: nat, order: nat): int {
    if off / Power2(order) % 2 == 0 then off + Power2(order) else off - Power2(order)
  }

  lemma {:induction false} WidthSum(a: nat, b: nat)
    ensures Power2(a + b) == Power2(a) * Power2(b)
    decreases a
  {
    if a > 0 {
      WidthSum(a - 1, b);
      Distribute(Power2(a - 1), Power2(a - 1), Power2(b));
    }
  }

  lemma OffsetInBytes(p: Pool, b: Block)
    ensures FirstUnit(b) * Power2(p.minOrder) == b.index * Power2(p.minOrder + b.level)
  {
    FirstUnitIsProduct(b);
    WidthSum(p.minOrder, b.level);
    Regroup(b.index, Power2(b.level), Power2(p.minOrder));
  }

  /** The exclusive-or of the source is the address of the partner block. */
  lemma FlipBitIsBuddy(p: Pool, b: Block)
    ensures p.base + FlipBit(AddrOf(p, b) - p.base, p.minOrder + b.level) == AddrOf(p, Buddy(b))
  {
    hide FirstUnit, Power2;
    var size := Power2(p.minOrder + b.level);
    OffsetInBytes(p, b);
    OffsetInBytes(p, Buddy(b));
    DivUnique(b.index * size, size, b.index, 0);
    if b.index % 2 == 0 {
      OneMore(b.index, size);
    } else {
      OneMore(b.index - 1, size);
    }
  }

  /** The level of the smallest block that holds `size` bytes. */
  predicate IsLevelFor(minOrder: nat, size: nat, level: nat) {
    && size <= Power2(minOrder + level)
    && (level > 0 ==> Power2(minOrder + level - 1) < size)
  }

  /** Only link words at the base of blocks no unit of which is in use were written. */
  ghost predicate OnlyFreeWritten(p: Pool, before: Memory, after: Memory, live: set<Block>) {
    && before.Keys <= after.Keys
    && forall a <- after.Keys :: a !in before || after[a] != before[a] ==>
         exists b: Block :: AddrOf(p, b) == a && InPool(b, p.top) && WhollyFree(live, b)
  }

  lemma CountedNone(p: Pool)
    ensures Counted(p, {}, 0, 0)
  {
  }

  /** What counting the whole free set says about the live one. */
  lemma Counts(p: Pool, live: set<Block>, free: set<Block>, total: nat, largest: nat)
    requires Canonical(live, free, p.top) && Counted(p, free, total, largest)
    requires TotalWidth(live) + TotalWidth(free) == Power2(p.top)
    ensures total == Power2(p.minOrder + p.top) - TotalWidth(live) * Power2(p.minOrder)
    ensures LargestFree(p, live, largest)
  {
    hide Partition, NoBuddies, WhollyFree, Power2;
    LargestIsFree(p, live, free, largest);
    WidthSum(p.top, p.minOrder);
    Distribute(TotalWidth(free), TotalWidth(live), Power2(p.minOrder));
  }

  class Allocator {
    const minOrder: nat
    const maxOrder: nat
    const heads: array<nat>
    const table: array<nat>
    const base: nat
    var mem: Memory
    ghost var lists: seq<seq<Block>>
    ghost var live: set<Block>
    ghost var free: set<Block>

    ghost function Geometry(): (p: Pool)
      requires minOrder <= maxOrder
    {
      Pool(base, minOrder, maxOrder - minOrder)
    }

    ghost predicate Shape()
    {
      && 0 < minOrder <= maxOrder
      && heads != table
      && heads.Length == maxOrder - minOrder + 1 && table.Length == Power2(maxOrder - minOrder)
      && base > 0 && base % Power2(maxOrder) == 0
    }

    ghost predicate Lists()
      reads this, heads
    {
      && Shape()
      && |lists| == heads.Length
      && Linked(Geometry(), mem, heads[..], lists)
      && Listed(lists, free)
    }

    ghost predicate Valid()
      reads this, heads, table
    {
      && Lists()
      && Canonical(live, free, maxOrder - minOrder)
      && TotalWidth(live) + TotalWidth(free) == Power2(maxOrder - minOrder)
      && Recorded(table[..], minOrder, live)
    }

    /** mdl_buddy_init(): one free block that spans everything, nothing live. */
    constructor (minOrder: nat, maxOrder: nat, base: nat)
      requires 0 < minOrder <= maxOrder && base > 0 && base % Power2(maxOrder) == 0
      ensures Valid() && live == {} && free == {Block(maxOrder - minOrder, 0)}
      ensures this.minOrder == minOrder && this.maxOrder == maxOrder && this.base == base
      ensures fresh(heads) && fresh(table)
    {
      hide Partition, NoBuddies, FirstUnit;
      this.minOrder, this.maxOrder, this.base := minOrder, maxOrder, base;
      heads := new nat[maxOrder - minOrder + 1];
      table := new nat[Power2(maxOrder - minOrder)];
      mem := map[];
      lists, live, free := seq(maxOrder - minOrder + 1, _ => []), {}, {};
      new;
      for i := 0 to heads.Length
        invariant forall j :: 0 <= j < i ==> heads[j] == 0
        modifies heads
      {
        heads[i] := 0;
      }
      for i := 0 to table.Length
        invariant forall j :: 0 <= j < i ==> table[j] == 0
        modifies table
      {
        table[i] := 0;
      }
      ghost var whole := Block(maxOrder - minOrder, 0);
      FirstUnitIsProduct(whole);
      WholePoolCanonical(maxOrder - minOrder);
      TotalWidthAdd({}, whole);
      Push(maxOrder, base, whole);
      assert {} + {whole} == {whole};
    }

    /** push() */
    method Push(order: nat, addr: nat, ghost b: Block)
      requires Lists() && minOrder <= order <= maxOrder
      requires b.level == order - minOrder && addr == AddrOf(Geometry(), b) && Unlisted(lists, b)
      modifies this`mem, this`lists, this`free, heads
      ensures Lists() && free == old(free) + {b}
      ensures lists == old(lists)[b.level := [b] + old(lists[b.level])]
      ensures mem == old(mem)[addr := old(heads[order - minOrder])]
    {
      hide Listed, Linked, Power2, Unlisted, FirstUnit;
      ghost var at := order - minOrder;
      PushLinked(Geometry(), mem, heads[..], lists, b);
      PushListed(lists, free, b);
      mem := mem[addr := heads[order - minOrder]];
      heads[order - minOrder] := addr;
      lists := lists[at := [b] + lists[at]];
      free := free + {b};
      assert heads[..] == old(heads[..])[at := addr];
    }

    /** pop() */
    method Pop(order: nat) returns (addr: nat, ghost b: Block)
      requires Lists() && minOrder <= order <= maxOrder
      modifies this`lists, this`free, heads
      ensures Lists()
      ensures addr == 0 <==> forall f <- old(free) :: f.level != order - minOrder
      ensures addr == 0 ==> lists == old(lists) && free == old(free)
      ensures addr != 0 ==> b in old(free) && b.level == order - minOrder && addr == AddrOf(Geometry(), b)
      ensures addr != 0 ==> free == old(free) - {b} && Unlisted(lists, b)
    {
      hide Linked, Listed, Unlisted, FirstUnit, Power2;
      ghost var at := order - minOrder;
      b := Block(at, 0);
      HeadMeans(Geometry(), mem, heads[..], lists, free, at);
      if heads[order - minOrder] == 0 {
        return 0, b;
      }
      b := lists[at][0];
      PopParts(Geometry(), mem, heads[..], lists, free, at);
      addr := heads[order - minOrder];
      heads[order - minOrder] := mem[addr];
      lists := lists[at := Without(lists[at], 0)];
      free := free - {b};
      assert heads[..] == old(heads[..])[at := mem[addr]];
    }

    /** unlink_at(): walk one list for one address. `link` is the word that points at `cur`. */
    method UnlinkAt(order: nat, addr: nat, ghost b: Block) returns (found: bool)
      requires Lists() && minOrder <= order <= maxOrder
      requires b.level == order - minOrder && addr == AddrOf(Geometry(), b)
      modifies this`mem, this`lists, this`free, heads
      ensures Lists() && free == old(free) - {b}
      ensures found <==> b in old(free)
      ensures found ==> Unlisted(lists, b)
      ensures mem.Keys == old(mem).Keys
      ensures forall a <- mem.Keys :: mem[a] != old(mem)[a] ==> exists f <- free :: AddrOf(Geometry(), f) == a
    {
      hide Unlisted, Apart, FirstUnit, Power2;
      ghost var at := order - minOrder;
      ghost var nodes := Addrs(Geometry(), lists[at]);
      var link, cur := 0, heads[order - minOrder];
      ghost var k := 0;
      while cur != 0
        invariant k <= |nodes| && Chain(mem, cur, nodes[k..])
        invariant if k == 0 then link == 0 && cur == heads[at] else link == nodes[k - 1] && link in mem && cur == mem[link]
        invariant forall i :: 0 <= i < k ==> nodes[i] != addr
        decreases |nodes| - k
      {
        assert cur == nodes[k] == AddrOf(Geometry(), lists[at][k]);
        if cur == addr {
          AddrInjective(Geometry(), lists[at][k], b);
          FirstUnitOfLevel(lists[at][k], b);
          RemoveAt(order, link, k);
          return true;
        }
        assert nodes[k..][1..] == nodes[k + 1..];
        link, cur := cur, mem[cur];
        k := k + 1;
      }
      assert k == |nodes|;
      assert forall i :: 0 <= i < |nodes| ==> nodes[i] == AddrOf(Geometry(), lists[at][i]);
      return false;
    }

    /** The unlinking itself: the word before position `k` skips over it. */
    method RemoveAt(order: nat, link: nat, ghost k: nat)
      requires Lists() && minOrder <= order <= maxOrder
      requires k < |lists[order - minOrder]|
      requires link == if k == 0 then 0 else AddrOf(Geometry(), lists[order - minOrder][k - 1])
      modifies this`mem, this`lists, this`free, heads
      ensures Lists() && free == old(free) - {old(lists[order - minOrder][k])}
      ensures Unlisted(lists, old(lists[order - minOrder][k]))
      ensures mem.Keys == old(mem).Keys
      ensures forall a <- mem.Keys :: mem[a] != old(mem)[a] ==> exists f <- free :: AddrOf(Geometry(), f) == a
    {
      hide Chain, Apart, Unlisted, Listed, FirstUnit;
      ghost var at := order - minOrder;
      ghost var gone := lists[at][k];
      DropListed(lists, free, at, k);
      DropApart(lists, at, k);
      if link == 0 {
        PopLinked(Geometry(), mem, heads[..], lists, at);
        heads[order - minOrder] := mem[heads[order - minOrder]];
        assert heads[..] == old(heads[..])[at := mem[old(heads[..])[at]]];
      } else {
        DropLinked(Geometry(), mem, heads[..], lists, at, k);
        ChainAt(mem, heads[at], Addrs(Geometry(), lists[at]), k);
        var cur := mem[link];
        assert cur == AddrOf(Geometry(), gone);
        mem := mem[link := mem[cur]];
      }
      ghost var prev := if k == 0 then gone else lists[at][k - 1];
      lists := lists[at := Without(lists[at], k)];
      free := free - {gone};
      assert k > 0 ==> prev in free;
    }

    /** order_for() */
    method OrderFor(size: nat) returns (order: int)
      requires Shape()
      ensures order == -1 <==> size > Power2(maxOrder)
      ensures order != -1 ==> minOrder <= order <= maxOrder && IsLevelFor(minOrder, size, order - minOrder)
    {
      order := minOrder;
      while Power2(order) < size
        invariant minOrder <= order <= maxOrder && (order > minOrder ==> Power2(order - 1) < size)
      {
        order := order + 1;
        if order > maxOrder {
          return -1;
        }
      }
      WidthGrows(order, maxOrder);
    }

    /** mdl_buddy_block_size() */
    method BlockSize(size: nat) returns (bytes: nat)
      requires Shape()
      ensures bytes == 0 <==> size > Power2(maxOrder)
      ensures bytes != 0 ==>
        exists level: nat :: minOrder + level <= maxOrder && IsLevelFor(minOrder, size, level) && bytes == Power2(minOrder + level)
    {
      var o := OrderFor(size);
      bytes := if o < 0 then 0 else Power2(o);
      assert o >= 0 ==> IsLevelFor(minOrder, size, o - minOrder);
    }

    /** `cur` is neither live nor listed, and fills the one gap between them. */
    ghost predicate Holding(cur: Block)
      reads this, heads
    {
      && Lists()
      && cur !in live && cur !in free && live !! free
      && Partition(live + free + {cur}, maxOrder - minOrder)
      && NoBuddies(free, maxOrder - minOrder)
      && TotalWidth(live) + TotalWidth(free) + Power2(cur.level) == Power2(maxOrder - minOrder)
    }

    /** The splitting loop of mdl_buddy_alloc(). */
    method SplitDown(addr: nat, have0: nat, want: nat, ghost f: Block) returns (ghost b: Block)
      requires Holding(f)
      requires minOrder <= want <= have0 <= maxOrder && f.level == have0 - minOrder && addr == AddrOf(Geometry(), f)
      modifies this`mem, this`lists, this`free, heads
      ensures Holding(b) && b.level == want - minOrder
      ensures FirstUnit(b) == FirstUnit(f) && Encloses(f, b)
      ensures old(free) <= free && old(mem).Keys <= mem.Keys
      ensures forall a <- mem.Keys :: a !in old(mem) || mem[a] != old(mem)[a] ==> exists x <- free :: AddrOf(Geometry(), x) == a
    {
      hide Partition, NoBuddies, Apart, Chain, Listed, Unlisted, TotalWidth, Encloses, FirstUnit, AddrOf;
      EnclosesSelf(f);
      var have := have0;
      b := f;
      while have > want
        invariant want <= have <= have0 && b.level == have - minOrder && addr == AddrOf(Geometry(), b) && Holding(b)
        invariant FirstUnit(b) == FirstUnit(f) && Encloses(f, b)
        invariant old(free) <= free && old(mem).Keys <= mem.Keys
        invariant forall a <- mem.Keys :: a !in old(mem) || mem[a] != old(mem)[a] ==> exists x <- free :: AddrOf(Geometry(), x) == a
      {
        have := have - 1;
        ghost var upper := Upper(b);
        EnclosesLower(f, b);
        LowerFirstUnit(b);
        UpperAddr(Geometry(), b);
        SplitSets(live, free, b, maxOrder - minOrder);
        SplitCounts(free, b, maxOrder - minOrder);
        UnlistedByPartition(lists, free, live + (free + {upper}) + {Lower(b)}, upper, maxOrder - minOrder);
        Push(have, addr + Power2(have), upper);
        b := Lower(b);
      }
    }

    /** The lowest order from `want` up whose list is not empty, or -1. */
    method SmallestAvailable(want: nat) returns (have: int)
      requires Lists() && minOrder <= want <= maxOrder
      ensures have == -1 <==> forall f <- free :: minOrder + f.level < want
      ensures have != -1 ==> want <= have <= maxOrder
      ensures have != -1 ==> exists f <- free :: minOrder + f.level == have
      ensures have != -1 ==> forall f <- free :: want <= minOrder + f.level ==> have <= minOrder + f.level
    {
      hide Linked, Listed, Power2;
      HeadMeans(Geometry(), mem, heads[..], lists, free, want - minOrder);
      for o := want to maxOrder + 1
        invariant forall f <- free :: want <= minOrder + f.level ==> o <= minOrder + f.level
      {
        HeadMeans(Geometry(), mem, heads[..], lists, free, o - minOrder);
        if heads[o - minOrder] != 0 {
          return o;
        }
      }
      return -1;
    }

    /** mdl_buddy_alloc() */
    method Alloc(size: nat) returns (p: nat, ghost b: Block)
      requires Valid()
      modifies this`mem, this`lists, this`free, this`live, heads, table
      ensures Valid()
      ensures p != 0 <==> CanPlace(Geometry(), old(live), size)
      ensures p == 0 ==> live == old(live) && free == old(free) && mem == old(mem)
      ensures p != 0 ==> p == AddrOf(Geometry(), b) && IsLevelFor(minOrder, size, b.level) && InPool(b, maxOrder - minOrder)
      ensures p != 0 ==> b !in old(live) && WhollyFree(old(live), b) && live == old(live) + {b}
      ensures p != 0 ==> CutFromSmallest(old(free), b)
      ensures OnlyFreeWritten(Geometry(), old(mem), mem, live)
    {
      hide Partition, NoBuddies, Linked, Listed, Unlisted, Recorded, WhollyFree, TotalWidth, CutFromSmallest;
      b := Block(0, 0);
      if size == 0 {
        return 0, b;
      }
      var want := OrderFor(size);
      if want < 0 {
        TooLarge(Geometry(), live, size);
        return 0, b;
      }
      var have := SmallestAvailable(want);
      if have < 0 {
        CannotPlace(Geometry(), live, free, size, want - minOrder);
        return 0, b;
      }
      p, b := Take(size, want, have);
    }

    /** The successful path: pop, split down, record. */
    method Take(size: nat, want: nat, have: nat) returns (p: nat, ghost b: Block)
      requires Valid() && 0 < size
      requires minOrder <= want <= have <= maxOrder && IsLevelFor(minOrder, size, want - minOrder)
      requires exists f <- free :: minOrder + f.level == have
      requires forall f <- free :: want <= minOrder + f.level ==> have <= minOrder + f.level
      modifies this`mem, this`lists, this`free, this`live, heads, table
      ensures Valid()
      ensures p != 0 && CanPlace(Geometry(), old(live), size)
      ensures p == AddrOf(Geometry(), b) && b.level == want - minOrder && InPool(b, maxOrder - minOrder)
      ensures b !in old(live) && WhollyFree(old(live), b) && live == old(live) + {b}
      ensures CutFromSmallest(old(free), b)
      ensures OnlyFreeWritten(Geometry(), old(mem), mem, live)
    {
      hide Partition, NoBuddies, Linked, Listed, Unlisted, Recorded, WhollyFree, TotalWidth, OnlyFreeWritten, CutFromSmallest, CanPlace, Encloses, InPool, FirstUnit;
      ghost var f;
      p, f := Pop(have);
      TakeOut(live, old(free), f, maxOrder - minOrder);
      b := SplitDown(p, have, want, f);
      CanPlaceAt(Geometry(), live, old(free), size, f, b);
      CutMeans(old(free), f, b);
      PutIn(live, free, b, maxOrder - minOrder);
      RecordedAdd(table[..], minOrder, live, free, b, maxOrder - minOrder);
      IndexOfAddr(Geometry(), b);
      FreeBlocksAreFree(Geometry(), old(mem), mem, live + {b}, free);
      table[(p - base) / Power2(minOrder)] := want;
      live := live + {b};
      assert table[..] == old(table[..])[FirstUnit(b) := want];
    }

    /** The coalescing loop of mdl_buddy_free(): climb while the partner half is free. */
    method Coalesce(addr0: nat, order0: nat, ghost b: Block)
      requires Holding(b)
      requires minOrder <= order0 <= maxOrder && b.level == order0 - minOrder && addr0 == AddrOf(Geometry(), b)
      modifies this`mem, this`lists, this`free, heads
      ensures Lists() && Canonical(live, free, maxOrder - minOrder)
      ensures TotalWidth(live) + TotalWidth(free) == Power2(maxOrder - minOrder)
      ensures OnlyFreeWritten(Geometry(), old(mem), mem, live)
    {
      hide Partition, NoBuddies, Listed, Unlisted, WhollyFree, TotalWidth, OnlyFreeWritten, Apart, Chain;
      var addr, order := addr0, order0;
      ghost var cur := b;
      ghost var alone := false;
      NothingWritten(Geometry(), mem, live);
      while order < maxOrder
        invariant minOrder <= order <= maxOrder && cur.level == order - minOrder && addr == AddrOf(Geometry(), cur)
        invariant Holding(cur) && !alone
        invariant OnlyFreeWritten(Geometry(), old(mem), mem, live)
        decreases maxOrder - order
      {
        FlipBitIsBuddy(Geometry(), cur);
        var buddy: nat := base + FlipBit(addr - base, order);
        ghost var before := mem;
        ghost var listed := free;
        var found := UnlinkAt(order, buddy, Buddy(cur));
        LinksWritten(Geometry(), before, mem, live, free, listed, cur);
        WrittenTwice(Geometry(), old(mem), before, mem, live);
        if !found {
          assert free == listed;
          alone := true;
          break;
        }
        MergeSets(live, listed, cur, maxOrder - minOrder);
        MergedAddr(Geometry(), cur);
        if buddy < addr {
          addr := buddy;
        }
        order := order + 1;
        cur := Parent(cur);
      }
      ghost var before := mem;
      ghost var listed := free;
      BuddyAdded(free, cur, maxOrder - minOrder);
      GapIsFree(live, free, cur, maxOrder - minOrder);
      UnlistedByPartition(lists, free, live + free + {cur}, cur, maxOrder - minOrder);
      Push(order, addr, cur);
      LinkWritten(Geometry(), before, mem, live, cur);
      WrittenTwice(Geometry(), old(mem), before, mem, live);
      assert live + (listed + {cur}) == live + listed + {cur};
      TotalWidthAdd(listed, cur);
    }

    /** mdl_buddy_free(): anything but the base of a live block is ignored. */
    method Free(p: nat)
      requires Valid()
      modifies this`mem, this`lists, this`free, this`live, heads, table
      ensures Valid()
      ensures forall b <- old(live) :: AddrOf(Geometry(), b) == p ==> live == old(live) - {b}
      ensures (forall b <- old(live) :: AddrOf(Geometry(), b) != p) ==>
                live == old(live) && free == old(free) && mem == old(mem)
      ensures OnlyFreeWritten(Geometry(), old(mem), mem, live)
    {
      hide Partition, NoBuddies, Linked, Listed, Unlisted, WhollyFree, TotalWidth, OnlyFreeWritten, Power2;
      NothingWritten(Geometry(), mem, live);
      LiveAddrs(Geometry(), table[..], live, free);
      if p == 0 {
        return;
      }
      if p < base || p >= base + Power2(maxOrder) {
        return;
      }
      if (p - base) % Power2(minOrder) != 0 {
        return;
      }
      SlotInTable(Geometry(), p);
      var i := (p - base) / Power2(minOrder);
      var order := table[i];
      if order < minOrder || order > maxOrder {
        return;
      }
      ghost var b := Release(p, i);
      assert live == old(live) - {b};
    }

    /** The accepted path: forget the block in the side table, then coalesce. */
    method Release(p: nat, i: nat) returns (ghost b: Block)
      requires Valid() && i < table.Length && table[i] != 0
      requires forall b: Block :: FirstUnit(b) == i ==> AddrOf(Geometry(), b) == p
      modifies this`mem, this`lists, this`free, this`live, heads, table
      ensures Valid()
      ensures b in old(live) && live == old(live) - {b}
      ensures forall x <- old(live) :: AddrOf(Geometry(), x) == p <==> x == b
      ensures OnlyFreeWritten(Geometry(), old(mem), mem, live)
    {
      hide Partition, NoBuddies, Linked, Listed, Unlisted, WhollyFree, TotalWidth, OnlyFreeWritten, Power2;
      b :| b in live && FirstUnit(b) == i;
      OnlyOneAt(Geometry(), live, free, b);
      RecordedRemove(table[..], minOrder, live, free, b, maxOrder - minOrder);
      GiveBack(live, free, b, maxOrder - minOrder);
      var order := table[i];
      table[i] := 0;
      live := live - {b};
      assert table[..] == old(table[..])[i := 0];
      Coalesce(p, order, b);
    }

    /** The free list of one order, added up. */
    method CountList(order: nat, total0: nat, largest0: nat, ghost seen0: set<Block>) returns (total: nat, largest: nat, ghost seen: set<Block>)
      requires Lists() && minOrder <= order <= maxOrder
      requires seen0 <= free && Counted(Geometry(), seen0, total0, largest0)
      requires forall f <- free :: f in seen0 <==> f.level < order - minOrder
      ensures seen <= free && Counted(Geometry(), seen, total, largest)
      ensures forall f <- free :: f in seen <==> f.level < order - minOrder + 1
    {
      hide Counted, Power2, Apart, AddrOf, FirstUnit, NoRepeats;
      ghost var at := order - minOrder;
      ghost var nodes := Addrs(Geometry(), lists[at]);
      total, largest, seen := total0, largest0, seen0;
      var n := heads[order - minOrder];
      ghost var k := 0;
      while n != 0
        invariant k <= |nodes| && Chain(mem, n, nodes[k..])
        invariant seen <= free && Counted(Geometry(), seen, total, largest)
        invariant forall f <- free :: f in seen <==> f.level < at || f in lists[at][..k]
        decreases |nodes| - k
      {
        ghost var b := lists[at][k];
        NotEarlier(lists, at, k);
        CountOne(Geometry(), seen, b, total, largest);
        seen := seen + {b};
        total := total + Power2(order);
        if Power2(order) > largest {
          largest := Power2(order);
        }
        assert nodes[k..][1..] == nodes[k + 1..];
        assert lists[at][..k + 1] == lists[at][..k] + [b];
        n := mem[n];
        k := k + 1;
      }
      assert lists[at][..k] == lists[at];
    }

    /** mdl_buddy_stats() */
    method Stats() returns (total: nat, largest: nat)
      requires Valid()
      ensures total == Power2(maxOrder) - TotalWidth(live) * Power2(minOrder)
      ensures LargestFree(Geometry(), live, largest)
    {
      hide Canonical, Linked, Listed, LargestFree, Counted, TotalWidth, Power2, Recorded;
      CountedNone(Geometry());
      total, largest := 0, 0;
      ghost var seen := {};
      for order := minOrder to maxOrder + 1
        invariant seen <= free && Counted(Geometry(), seen, total, largest)
        invariant forall f <- free :: f in seen <==> f.level < order - minOrder
      {
        total, largest, seen := CountList(order, total, largest, seen);
      }
      FreeLevels(live, free, maxOrder - minOrder);
      assert seen == free;
      Counts(Geometry(), live, free, total, largest);
    }
  }

  /** `largest` is the size of the largest wholly free aligned block, or 0. */
  ghost predicate LargestFree(p: Pool, live: set<Block>, largest: nat) {
    && (forall b: Block :: InPool(b, p.top) && WhollyFree(live, b) ==> Power2(p.minOrder + b.level) <= largest)
    && (largest != 0 ==> exists b: Block :: InPool(b, p.top) && WhollyFree(live, b) && Power2(p.minOrder + b.level) == largest)
  }

  lemma NotEarlier(lists: seq<seq<Block>>, l: nat, k: nat)
    requires Apart(lists) && l < |lists| && k < |lists[l]|
    ensures lists[l][k] !in lists[l][..k]
  {
  }

  lemma FreeLevels(live: set<Block>, free: set<Block>, top: nat)
    requires Canonical(live, free, top)
    ensures forall f <- free :: f.level < top + 1
  {
    assert forall f <- free :: f in live + free;
  }

  lemma LargestIsFree(p: Pool, live: set<Block>, free: set<Block>, largest: nat)
    requires Canonical(live, free, p.top)
    requires forall f <- free :: Power2(p.minOrder + f.level) <= largest
    requires largest != 0 ==> exists f <- free :: Power2(p.minOrder + f.level) == largest
    ensures LargestFree(p, live, largest)
  {
    if largest != 0 {
      var f :| f in free && Power2(p.minOrder + f.level) == largest;
      FreeIsWhollyFree(live, free, f, p.top);
      assert f in live + free;
    }
    forall b: Block | InPool(b, p.top) && WhollyFree(live, b)
      ensures Power2(p.minOrder + b.level) <= largest
    {
      var f := WhollyFreeIsEnclosed(live, free, b, p.top);
      WidthGrows(p.minOrder + b.level, p.minOrder + f.level);
    }
  }

  /** The running totals of mdl_buddy_stats() over the blocks walked so far. */
  ghost predicate Counted(p: Pool, seen: set<Block>, total: nat, largest: nat) {
    && total == TotalWidth(seen) * Power2(p.minOrder)
    && (forall f <- seen :: Power2(p.minOrder + f.level) <= largest)
    && (largest != 0 ==> exists f <- seen :: Power2(p.minOrder + f.level) == largest)
  }

  lemma CountOne(p: Pool, seen: set<Block>, b: Block, total: nat, largest: nat)
    requires b !in seen && Counted(p, seen, total, largest)
    ensures var size := Power2(p.minOrder + b.level);
            Counted(p, seen + {b}, total + size, if size > largest then size else largest)
  {
    hide Power2, TotalWidth;
    TotalWidthAdd(seen, b);
    WidthSum(b.level, p.minOrder);
    Distribute(Power2(b.level), TotalWidth(seen), Power2(p.minOrder));
    assert b in seen + {b};
    assert seen <= seen + {b};
  }

  /** Live blocks are where mdl_buddy_free() looks for them, and nowhere it refuses to. */
  lemma LiveAddrs(p: Pool, table: seq<nat>, live: set<Block>, free: set<Block>)
    requires Recorded(table, p.minOrder, live) && Partition(live + free, p.top) && p.base > 0 && p.minOrder > 0
    ensures forall b <- live ::
      var a := AddrOf(p, b);
      && p.base <= a < p.base + Power2(p.minOrder + p.top)
      && (a - p.base) % Power2(p.minOrder) == 0
      && (a - p.base) / Power2(p.minOrder) == FirstUnit(b) < |table|
      && p.minOrder <= table[FirstUnit(b)] <= p.minOrder + p.top
  {
    hide Power2, FirstUnit, AddrOf;
    forall b <- live
      ensures p.base <= AddrOf(p, b) < p.base + Power2(p.minOrder + p.top)
      ensures b.level <= p.top
      ensures (AddrOf(p, b) - p.base) % Power2(p.minOrder) == 0
      ensures (AddrOf(p, b) - p.base) / Power2(p.minOrder) == FirstUnit(b)
    {
      assert b in live + free;
      IndexOfAddr(p, b);
      InPoolIsInterval(b, p.top);
      InPoolBytes(p, b);
    }
  }

  lemma OnlyOneAt(p: Pool, live: set<Block>, free: set<Block>, b: Block)
    requires Partition(live + free, p.top) && b in live
    ensures forall x <- live :: AddrOf(p, x) == AddrOf(p, b) <==> x == b
  {
    forall x <- live | AddrOf(p, x) == AddrOf(p, b)
      ensures x == b
    {
      AddrInjective(p, x, b);
      FirstUnitsDistinct(live + free, x, b, p.top);
    }
  }

  lemma InPoolBytes(p: Pool, b: Block)
    requires FirstUnit(b) + Power2(b.level) <= Power2(p.top)
    ensures AddrOf(p, b) + Power2(p.minOrder + b.level) <= p.base + Power2(p.minOrder + p.top)
  {
    WidthSum(p.minOrder, p.top);
    WidthSum(p.minOrder, b.level);
    MulMonotone(FirstUnit(b) + Power2(b.level), Power2(p.top), Power2(p.minOrder));
    Distribute(FirstUnit(b), Power2(b.level), Power2(p.minOrder));
    Commute(Power2(p.top), Power2(p.minOrder));
    Commute(Power2(b.level), Power2(p.minOrder));
  }

  lemma SlotInTable(p: Pool, addr: nat)
    requires p.base <= addr < p.base + Power2(p.minOrder + p.top)
    requires (addr - p.base) % Power2(p.minOrder) == 0
    ensures (addr - p.base) / Power2(p.minOrder) < Power2(p.top)
    ensures forall b: Block :: FirstUnit(b) == (addr - p.base) / Power2(p.minOrder) ==> AddrOf(p, b) == addr
  {
    hide Power2, FirstUnit;
    var w := Power2(p.minOrder);
    var q := (addr - p.base) / w;
    WidthSum(p.minOrder, p.top);
    assert addr - p.base == q * w;
    if Power2(p.top) <= q {
      MulMonotone(Power2(p.top), q, w);
      Commute(Power2(p.top), w);
    }
  }

  lemma RecordedRemove(table: seq<nat>, minOrder: nat, live: set<Block>, free: set<Block>, b: Block, top: nat)
    requires Recorded(table, minOrder, live) && b in live && Partition(live + free, top)
    ensures FirstUnit(b) < |table| && table[FirstUnit(b)] == minOrder + b.level && b.level <= top
    ensures Recorded(table[FirstUnit(b) := 0], minOrder, live - {b})
  {
    hide FirstUnit, Power2;
    var bs := live + free;
    assert b in bs;
    forall x <- live | x != b
      ensures FirstUnit(x) != FirstUnit(b)
    {
      assert x in bs;
      if FirstUnit(x) == FirstUnit(b) {
        FirstUnitsDistinct(bs, x, b, top);
      }
    }
  }

  /** A freed block is first in no one's hands. */
  lemma GiveBack(live: set<Block>, free: set<Block>, b: Block, top: nat)
    requires Canonical(live, free, top) && b in live
    ensures b !in free && (live - {b}) !! free
    ensures Partition(live - {b} + free + {b}, top)
    ensures TotalWidth(live - {b}) + Power2(b.level) == TotalWidth(live)
  {
    assert live - {b} + free + {b} == live + free;
    TotalWidthRemove(live, b);
  }

  lemma NothingWritten(p: Pool, mem: Memory, live: set<Block>)
    ensures OnlyFreeWritten(p, mem, mem, live)
  {
  }

  lemma WrittenTwice(p: Pool, m0: Memory, m1: Memory, m2: Memory, live: set<Block>)
    requires OnlyFreeWritten(p, m0, m1, live) && OnlyFreeWritten(p, m1, m2, live)
    ensures OnlyFreeWritten(p, m0, m2, live)
  {
  }

  /** A block in no one's hands but ours touches nothing live. */
  lemma GapIsFree(live: set<Block>, free: set<Block>, b: Block, top: nat)
    requires Partition(live + free + {b}, top) && b !in live
    ensures InPool(b, top) && WhollyFree(live, b)
  {
    assert b in live + free + {b};
    forall l <- live, unit: nat | Covers(b, unit)
      ensures !Covers(l, unit)
    {
      assert l in live + free + {b};
    }
  }

  lemma LinkWritten(p: Pool, before: Memory, after: Memory, live: set<Block>, b: Block)
    requires InPool(b, p.top) && WhollyFree(live, b)
    requires exists v: nat {:trigger before[AddrOf(p, b) := v]} :: after == before[AddrOf(p, b) := v]
    ensures OnlyFreeWritten(p, before, after, live)
  {
  }

  lemma LinksWritten(p: Pool, before: Memory, after: Memory, live: set<Block>, free: set<Block>, listed: set<Block>, cur: Block)
    requires free <= listed && live !! listed && Partition(live + listed + {cur}, p.top)
    requires before.Keys == after.Keys
    requires forall a <- after.Keys :: after[a] != before[a] ==> exists f <- free :: AddrOf(p, f) == a
    ensures OnlyFreeWritten(p, before, after, live)
  {
    forall f <- free
      ensures InPool(f, p.top) && WhollyFree(live, f)
    {
      assert live + listed + {cur} == live + (listed - {f} + {cur}) + {f};
      GapIsFree(live, listed - {f} + {cur}, f, p.top);
    }
  }

  /** One merge, on the sets: the two halves give way to the whole. */
  lemma MergeSets(live: set<Block>, free: set<Block>, cur: Block, top: nat)
    requires live !! free && cur !in live && cur !in free && Buddy(cur) in free && cur.level < top
    requires Partition(live + free + {cur}, top) && NoBuddies(free, top)
    ensures Parent(cur) !in live && Parent(cur) !in free
    ensures Partition(live + (free - {Buddy(cur)}) + {Parent(cur)}, top) && NoBuddies(free - {Buddy(cur)}, top)
    ensures TotalWidth(free) + Power2(cur.level) == TotalWidth(free - {Buddy(cur)}) + Power2(cur.level + 1)
  {
    var bs := live + free + {cur};
    var whole := Parent(cur);
    HalvesOfParent(cur);
    MergePartition(bs, whole, top);
    assert live + (free - {Buddy(cur)}) + {whole} == bs - {Lower(whole), Upper(whole)} + {whole};
    TotalWidthRemove(free, Buddy(cur));
  }

  lemma HalvesOfParent(cur: Block)
    ensures Lower(Parent(cur)) == (if cur.index % 2 == 0 then cur else Buddy(cur))
    ensures Upper(Parent(cur)) == (if cur.index % 2 == 0 then Buddy(cur) else cur)
  {
  }

  lemma MergedAddr(p: Pool, cur: Block)
    ensures AddrOf(p, Parent(cur)) == (if AddrOf(p, Buddy(cur)) < AddrOf(p, cur) then AddrOf(p, Buddy(cur)) else AddrOf(p, cur))
  {
    HalvesOfParent(cur);
    UpperAddr(p, Parent(cur));
  }

  /** Every block's address is a multiple of its own size: what an MPU region requires. */
  lemma BlocksAreAligned(p: Pool, b: Block)
    requires p.base % Power2(p.minOrder + p.top) == 0 && b.level <= p.top
    ensures AddrOf(p, b) % Power2(p.minOrder + b.level) == 0
  {
    hide Power2;
    var size, up := Power2(p.minOrder + b.level), Power2(p.top - b.level);
    WidthSum(p.minOrder + b.level, p.top - b.level);
    var q := p.base / Power2(p.minOrder + p.top);
    assert p.base == q * (size * up);
    Regroup(q, up, size);
    OffsetInBytes(p, b);
    Distribute(q * up, b.index, size);
    DivUnique(AddrOf(p, b), size, q * up + b.index, 0);
  }

  /** Two blocks with no unit in common have no byte in common. */
  lemma ApartInBytes(p: Pool, a: Block, b: Block)
    requires forall unit: nat :: Covers(a, unit) ==> !Covers(b, unit)
    ensures AddrOf(p, a) + Power2(p.minOrder + a.level) <= AddrOf(p, b)
         || AddrOf(p, b) + Power2(p.minOrder + b.level) <= AddrOf(p, a)
  {
    CoversIsInterval(a, FirstUnit(a));
    CoversIsInterval(b, FirstUnit(b));
    CoversIsInterval(a, FirstUnit(b));
    CoversIsInterval(b, FirstUnit(a));
    WidthSum(p.minOrder, a.level);
    WidthSum(p.minOrder, b.level);
    Commute(Power2(a.level), Power2(p.minOrder));
    Commute(Power2(b.level), Power2(p.minOrder));
    if FirstUnit(a) < FirstUnit(b) {
      MulMonotone(FirstUnit(a) + Power2(a.level), FirstUnit(b), Power2(p.minOrder));
      Distribute(FirstUnit(a), Power2(a.level), Power2(p.minOrder));
    } else {
      MulMonotone(FirstUnit(b) + Power2(b.level), FirstUnit(a), Power2(p.minOrder));
      Distribute(FirstUnit(b), Power2(b.level), Power2(p.minOrder));
    }
  }

  lemma LevelUnique(minOrder: nat, size: nat, a: nat, b: nat)
    requires IsLevelFor(minOrder, size, a) && IsLevelFor(minOrder, size, b)
    ensures a == b
  {
    if a < b {
      WidthGrows(minOrder + a, minOrder + b - 1);
    } else if b < a {
      WidthGrows(minOrder + b, minOrder + a - 1);
    }
  }

  /** The side-table slot of an address: `(addr - base) >> minOrder`. */
  lemma IndexOfAddr(p: Pool, b: Block)
    ensures (AddrOf(p, b) - p.base) / Power2(p.minOrder) == FirstUnit(b)
    ensures (AddrOf(p, b) - p.base) % Power2(p.minOrder) == 0
  {
    DivUnique(FirstUnit(b) * Power2(p.minOrder), Power2(p.minOrder), FirstUnit(b), 0);
  }

  lemma RecordedAdd(table: seq<nat>, minOrder: nat, live: set<Block>, free: set<Block>, b: Block, top: nat)
    requires Recorded(table, minOrder, live) && minOrder > 0
    requires Partition(live + free + {b}, top) && b !in live && |table| == Power2(top)
    ensures FirstUnit(b) < |table|
    ensures Recorded(table[FirstUnit(b) := minOrder + b.level], minOrder, live + {b})
  {
    hide FirstUnit;
    var bs := live + free + {b};
    assert b in bs;
    InPoolIsInterval(b, top);
    forall x <- live
      ensures FirstUnit(x) != FirstUnit(b)
    {
      assert x in bs;
      if FirstUnit(x) == FirstUnit(b) {
        FirstUnitsDistinct(bs, x, b, top);
      }
    }
  }

  /** A request that can be served: some aligned block of its size class is wholly free. */
  ghost predicate CanPlace(p: Pool, live: set<Block>, size: nat) {
    0 < size && exists b: Block :: IsLevelFor(p.minOrder, size, b.level) && InPool(b, p.top) && WhollyFree(live, b)
  }

  lemma CannotPlace(p: Pool, live: set<Block>, free: set<Block>, size: nat, level: nat)
    requires Canonical(live, free, p.top) && IsLevelFor(p.minOrder, size, level)
    requires forall f <- free :: f.level < level
    ensures !CanPlace(p, live, size)
  {
    SomeFreeBlockIffFits(live, free, level, p.top);
    forall b: Block | IsLevelFor(p.minOrder, size, b.level)
      ensures b.level == level
    {
      LevelUnique(p.minOrder, size, b.level, level);
    }
  }

  lemma TooLarge(p: Pool, live: set<Block>, size: nat)
    requires size > Power2(p.minOrder + p.top)
    ensures !CanPlace(p, live, size)
  {
    forall b: Block | InPool(b, p.top)
      ensures !IsLevelFor(p.minOrder, size, b.level)
    {
      WidthGrows(p.minOrder + b.level, p.minOrder + p.top);
    }
  }

  lemma CanPlaceAt(p: Pool, live: set<Block>, free: set<Block>, size: nat, f: Block, b: Block)
    requires Canonical(live, free, p.top) && f in free && Encloses(f, b)
    requires 0 < size && IsLevelFor(p.minOrder, size, b.level)
    ensures CanPlace(p, live, size) && InPool(b, p.top) && WhollyFree(live, b)
  {
    FreeIsWhollyFree(live, free, f, p.top);
    AncestorCompose(b.index, f.level - b.level, p.top - f.level);
    forall l <- live, unit: nat | Covers(b, unit)
      ensures !Covers(l, unit)
    {
      EnclosesMeansCovers(f, b, unit);
    }
  }

  lemma CutMeans(free: set<Block>, f: Block, b: Block)
    requires f in free && f.level >= b.level && Encloses(f, b) && FirstUnit(f) == FirstUnit(b)
    requires forall x <- free :: b.level <= x.level ==> f.level <= x.level
    ensures CutFromSmallest(free, b)
  {
    hide Encloses, FirstUnit;
  }

  /** Taking a block out of the free set leaves exactly one gap. */
  lemma TakeOut(live: set<Block>, free: set<Block>, f: Block, top: nat)
    requires Canonical(live, free, top) && f in free
    ensures live !! (free - {f}) && f !in live
    ensures Partition(live + (free - {f}) + {f}, top) && NoBuddies(free - {f}, top)
    ensures TotalWidth(free - {f}) + Power2(f.level) == TotalWidth(free)
  {
    assert live + (free - {f}) + {f} == live + free;
    TotalWidthRemove(free, f);
  }

  lemma PutIn(live: set<Block>, free: set<Block>, b: Block, top: nat)
    requires live !! free && b !in live && b !in free
    requires Partition(live + free + {b}, top) && NoBuddies(free, top)
    ensures Canonical(live + {b}, free, top)
    ensures TotalWidth(live + {b}) == TotalWidth(live) + Power2(b.level)
  {
    assert live + {b} + free == live + free + {b};
    TotalWidthAdd(live, b);
  }

  lemma FreeBlocksAreFree(p: Pool, before: Memory, after: Memory, live: set<Block>, free: set<Block>)
    requires Canonical(live, free, p.top) && before.Keys <= after.Keys
    requires forall a <- after.Keys :: a !in before || after[a] != before[a] ==> exists x <- free :: AddrOf(p, x) == a
    ensures OnlyFreeWritten(p, before, after, live)
  {
    forall x <- free
      ensures InPool(x, p.top) && WhollyFree(live, x)
    {
      assert x in live + free;
      FreeIsWhollyFree(live, free, x, p.top);
    }
  }

  lemma UnlistedByPartition(lists: seq<seq<Block>>, free: set<Block>, bs: set<Block>, b: Block, top: nat)
    requires Leveled(lists) && Listed(lists, free) && free <= bs && Partition(bs, top) && b in bs && b !in free
    ensures Unlisted(lists, b)
  {
    forall l, k | 0 <= l < |lists| && 0 <= k < |lists[l]|
      ensures FirstUnit(lists[l][k]) != FirstUnit(b)
    {
      assert lists[l][k] in free;
      if FirstUnit(lists[l][k]) == FirstUnit(b) {
        FirstUnitsDistinct(bs, lists[l][k], b, top);
      }
    }
  }

  lemma UpperAddr(p: Pool, b: Block)
    requires b.level > 0
    ensures AddrOf(p, Lower(b)) == AddrOf(p, b)
    ensures AddrOf(p, Upper(b)) == AddrOf(p, b) + Power2(p.minOrder + b.level - 1)
  {
    NextFirstUnit(b.level - 1, 2 * b.index);
    OffsetInBytes(p, Lower(b));
    OffsetInBytes(p, Upper(b));
    OneMore(2 * b.index, Power2(p.minOrder + b.level - 1));
  }

  lemma EnclosesSelf(b: Block)
    ensures Encloses(b, b)
  {
  }

  lemma EnclosesLower(f: Block, b: Block)
    requires Encloses(f, b) && b.level > 0
    ensures Encloses(f, Lower(b))
  {
    AncestorCompose(2 * b.index, 1, f.level - b.level);
    assert Ancestor(2 * b.index, 1) == b.index;
  }

  /** One split, on the sets: the lower half stays in hand, the upper half is free. */
  lemma SplitSets(live: set<Block>, free: set<Block>, b: Block, top: nat)
    requires live !! free && b !in live && b !in free && b.level > 0
    requires Partition(live + free + {b}, top)
    ensures Lower(b) !in live + free && Upper(b) !in live + free
    ensures Partition(live + (free + {Upper(b)}) + {Lower(b)}, top)
  {
    SplitPartition(live + free + {b}, b, top);
    SplitRearranged(live, free, b, Lower(b), Upper(b));
  }

  lemma SplitCounts(free: set<Block>, b: Block, top: nat)
    requires b.level > 0 && Lower(b) !in free && Upper(b) !in free && NoBuddies(free, top)
    ensures NoBuddies(free + {Upper(b)}, top)
    ensures TotalWidth(free + {Upper(b)}) + Power2(b.level - 1) == TotalWidth(free) + Power2(b.level)
  {
    TotalWidthAdd(free, Upper(b));
    HalvesAreBuddies(b);
    BuddyAdded(free, Upper(b), top);
  }

  lemma HalvesAreBuddies(b: Block)
    requires b.level > 0
    ensures Buddy(Upper(b)) == Lower(b) && Buddy(Lower(b)) == Upper(b)
  {
  }

  lemma SplitRearranged<T>(live: set<T>, free: set<T>, whole: T, lower: T, upper: T)
    requires whole !in live && whole !in free
    ensures live + (free + {upper}) + {lower} == live + free + {whole} - {whole} + {lower, upper}
  {
  }

  lemma BuddyAdded(free: set<Block>, b: Block, top: nat)
    requires NoBuddies(free, top) && (b.level < top ==> Buddy(b) !in free)
    ensures NoBuddies(free + {b}, top)
  {
    assert forall x: Block :: Buddy(x) == b ==> x == Buddy(b);
  }

  lemma {:induction false} WidthGrows(a: nat, b: nat)
    requires a <= b
    ensures Power2(a) <= Power2(b)
    decreases b - a
  {
    if a < b {
      WidthGrows(a, b - 1);
    }
  }

  lemma FirstUnitOfLevel(a: Block, b: Block)
    requires a.level == b.level && FirstUnit(a) == FirstUnit(b)
    ensures a == b
  {
    FirstUnitCovered(a);
    FirstUnitCovered(b);
  }
}
