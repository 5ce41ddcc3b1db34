/**
 mdl/core/arena.c: three buddy blocks per module, all or none, and what that makes of
 the bounds the rest of the firmware trusts (ptr_owned_by_module of mdl/host/host_api.c).
 */
module Arena {
  import opened Arithmetic
  import opened BuddyBlocks
  import opened BuddyRoom
  import opened FreeList
  import opened BuddyLists
  import opened BuddyAllocator
  import opened Registry

  /** MDL_HEAP_SIZE, MDL_GUARD_SIZE and MDL_STACK_SIZE: what the ABI promises a module. */
  datatype Layout = Layout(heap: nat, guard: nat, stack: nat) {
    function Total(): nat { heap + guard + stack }
  }

  function SizeOf(p: Pool, b: Block): nat {
    Power2(p.minOrder + b.level)
  }

  function EndOf(p: Pool, b: Block): nat {
    AddrOf(p, b) + SizeOf(p, b)
  }

  /** The module's three blocks are live and distinct and its bounds are theirs. */
  ghost predicate Placed(p: Pool, live: set<Block>, y: Layout, m: Module)
    reads m`text, m`data, m`heapStack, m`textLo, m`textHi, m`dataLo, m`dataHi
    reads m`heapStackLo, m`heapStackHi, m`guardLo, m`guardHi
  {
    && m.text in live && m.data in live && m.heapStack in live
    && m.text != m.data && m.text != m.heapStack && m.data != m.heapStack
    && m.textLo == AddrOf(p, m.text) && m.textHi == EndOf(p, m.text)
    && m.dataLo == AddrOf(p, m.data) && m.dataHi == EndOf(p, m.data)
    && m.heapStackLo == AddrOf(p, m.heapStack) && m.heapStackHi == EndOf(p, m.heapStack)
    && m.guardLo == m.heapStackLo + y.heap && m.guardHi == m.guardLo + y.guard
    && m.guardHi + y.stack <= m.heapStackHi
  }

  /** The three blocks have exactly the size classes of the requests. */
  ghost predicate Sized(p: Pool, m: Module, textBytes: nat, dataBytes: nat, total: nat)
    reads m`text, m`data, m`heapStack
  {
    IsLevelFor(p.minOrder, textBytes, m.text.level) && IsLevelFor(p.minOrder, dataBytes, m.data.level) && IsLevelFor(p.minOrder, total, m.heapStack.level)
  }

  ghost function BlocksOf(m: Module): set<Block>
    reads m`arenaHeld, m`text, m`data, m`heapStack
  {
    if m.arenaHeld then {m.text, m.data, m.heapStack} else {}
  }

  /** Some aligned block of the request's size class is free; a request of 0 counts as the smallest. */
  ghost predicate FitsAlone(p: Pool, live: set<Block>, size: nat) {
    exists b: Block :: IsLevelFor(p.minOrder, size, b.level) && InPool(b, p.top) && WhollyFree(live, b)
  }

  /** `rounded` is the block size mdl_buddy_block_size() gives for `size`. */
  ghost predicate IsRounded(p: Pool, size: nat, rounded: nat) {
    exists level: nat :: level <= p.top && IsLevelFor(p.minOrder, size, level) && rounded == Power2(p.minOrder + level)
  }

  /** What mdl_buddy_block_size() gives: 0 for more than the pool. */
  ghost predicate Takes(p: Pool, size: nat, bytes: nat) {
    if size > Power2(p.minOrder + p.top) then bytes == 0 else IsRounded(p, size, bytes)
  }

  lemma TooLargeAlone(p: Pool, live: set<Block>, size: nat)
    requires size > Power2(p.minOrder + p.top)
    ensures !FitsAlone(p, live, size)
  {
    forall b: Block | InPool(b, p.top)
      ensures !IsLevelFor(p.minOrder, size, b.level)
    {
      WidthGrows(p.minOrder + b.level, p.minOrder + p.top);
    }
  }

  lemma FitsAloneMeans(p: Pool, live: set<Block>, size: nat, rounded: nat, largest: nat)
    requires LargestFree(p, live, largest)
    requires IsRounded(p, size, rounded)
    ensures FitsAlone(p, live, size) <==> rounded <= largest
  {
    hide Power2, Encloses, WhollyFree, InPool;
    var level: nat :| level <= p.top && IsLevelFor(p.minOrder, size, level) && rounded == Power2(p.minOrder + level);
    if rounded <= largest {
      var b: Block :| InPool(b, p.top) && WhollyFree(live, b) && Power2(p.minOrder + b.level) == largest;
      if b.level < level {
        WidthStrict(p.minOrder + b.level, p.minOrder + level);
      }
      var inside := LowestInside(live, b, level, p.top);
      assert IsLevelFor(p.minOrder, size, inside.level);
    }
    if FitsAlone(p, live, size) {
      var b: Block :| IsLevelFor(p.minOrder, size, b.level) && InPool(b, p.top) && WhollyFree(live, b);
      LevelUnique(p.minOrder, size, b.level, level);
    }
  }

  lemma WidthStrict(a: nat, b: nat)
    requires a < b
    ensures Power2(a) < Power2(b)
  {
    WidthGrows(a, b - 1);
  }

  /** Freeing blocks never takes room away. */
  lemma FitsWithLess(p: Pool, live: set<Block>, after: set<Block>, size: nat)
    requires after <= live && FitsAlone(p, live, size)
    ensures FitsAlone(p, after, size)
  {
    var b: Block :| IsLevelFor(p.minOrder, size, b.level) && InPool(b, p.top) && WhollyFree(live, b);
    assert WhollyFree(after, b);
  }

  /** mdl_buddy_block_size(), with what it says about fitting. */
  method Rounded(a: Allocator, size: nat) returns (bytes: nat)
    requires a.Valid()
    ensures bytes == 0 <==> size > Power2(a.maxOrder)
    ensures bytes == 0 ==> !FitsAlone(a.Geometry(), a.live, size)
    ensures bytes != 0 ==> IsRounded(a.Geometry(), size, bytes)
    ensures Takes(a.Geometry(), size, bytes)
  {
    hide FitsAlone, Canonical, Linked, Recorded;
    bytes := a.BlockSize(size);
    if bytes == 0 {
      TooLargeAlone(a.Geometry(), a.live, size);
    } else {
      var level: nat :| a.minOrder + level <= a.maxOrder && IsLevelFor(a.minOrder, size, level) && bytes == Power2(a.minOrder + level);
      assert level <= a.Geometry().top;
    }
  }

  /** mdl_arena_would_fit() */
  method WouldFit(a: Allocator, y: Layout, textBytes: nat, dataBytes: nat) returns (fits: bool, need: nat)
    requires a.Valid()
    ensures fits <==> AllFitAlone(a.Geometry(), a.live, textBytes, dataBytes, y.Total())
    ensures exists t: nat, d: nat, h: nat ::
              Takes(a.Geometry(), textBytes, t) && Takes(a.Geometry(), dataBytes, d) && Takes(a.Geometry(), y.Total(), h) && need == t + d + h
  {
    hide FitsAlone, Canonical, Linked, Recorded, LargestFree, IsRounded, TotalWidth, Power2, Takes;
    var t := Rounded(a, textBytes);
    var d := Rounded(a, dataBytes);
    var h := Rounded(a, y.Total());
    need := t + d + h;
    if t == 0 || d == 0 || h == 0 {
      return false, need;
    }
    var _, largest := a.Stats();
    FitsAloneMeans(a.Geometry(), a.live, textBytes, t, largest);
    FitsAloneMeans(a.Geometry(), a.live, dataBytes, d, largest);
    FitsAloneMeans(a.Geometry(), a.live, y.Total(), h, largest);
    var biggest := if t > d then t else d;
    if h > biggest {
      biggest := h;
    }
    fits := largest >= biggest;
  }

  /** Three aligned blocks of the size classes asked for are free side by side. */
  ghost predicate RoomForThree(p: Pool, live: set<Block>, textBytes: nat, dataBytes: nat, total: nat) {
    exists lt: nat, ld: nat, lh: nat ::
      IsLevelFor(p.minOrder, textBytes, lt) && IsLevelFor(p.minOrder, dataBytes, ld) && IsLevelFor(p.minOrder, total, lh)
      && Room(live, p.top, [lt, ld, lh])
  }

  /** What acquiring takes: the room, and no request of 0 bytes, which is rounded up but never served. */
  ghost predicate CanAcquire(p: Pool, live: set<Block>, textBytes: nat, dataBytes: nat, total: nat) {
    0 < textBytes && 0 < dataBytes && 0 < total && RoomForThree(p, live, textBytes, dataBytes, total)
  }

  ghost predicate AllFitAlone(p: Pool, live: set<Block>, textBytes: nat, dataBytes: nat, total: nat) {
    FitsAlone(p, live, textBytes) && FitsAlone(p, live, dataBytes) && FitsAlone(p, live, total)
  }

  /** If the cheap check says no, there is no room for the three; the converse is not so. */
  lemma WouldFitIsNecessary(p: Pool, live: set<Block>, textBytes: nat, dataBytes: nat, total: nat)
    requires RoomForThree(p, live, textBytes, dataBytes, total)
    ensures AllFitAlone(p, live, textBytes, dataBytes, total)
  {
    hide SideBySide;
    var lt: nat, ld: nat, lh: nat :|
      IsLevelFor(p.minOrder, textBytes, lt) && IsLevelFor(p.minOrder, dataBytes, ld) && IsLevelFor(p.minOrder, total, lh)
      && Room(live, p.top, [lt, ld, lh]);
    var b0 := RoomForEach(live, p.top, [lt, ld, lh], 0);
    var b1 := RoomForEach(live, p.top, [lt, ld, lh], 1);
    var b2 := RoomForEach(live, p.top, [lt, ld, lh], 2);
    assert b0.level == lt && b1.level == ld && b2.level == lh;
  }

  lemma WrittenElsewhere(p: Pool, m0: Memory, m1: Memory, m2: Memory, live0: set<Block>, live: set<Block>)
    requires OnlyFreeWritten(p, m0, m1, live0) && OnlyFreeWritten(p, m1, m2, live) && live0 <= live
    ensures OnlyFreeWritten(p, m0, m2, live0)
  {
    assert forall b: Block :: WhollyFree(live, b) ==> WhollyFree(live0, b);
    assert OnlyFreeWritten(p, m1, m2, live0);
    WrittenTwice(p, m0, m1, m2, live0);
  }

  /** `b` is a block that was not live in `live0`, taken at address `at`; or nothing was. */
  ghost predicate Got(p: Pool, live0: set<Block>, live: set<Block>, size: nat, at: nat, b: Block) {
    if at == 0 then live == live0
    else at == AddrOf(p, b) && IsLevelFor(p.minOrder, size, b.level) && b.level <= p.top && b !in live0 && live == live0 + {b}
  }

  /** What one of a group of allocations says: whether there was room, and what it took. */
  ghost predicate Tried(p: Pool, live: set<Block>, free: set<Block>, size: nat, at: nat, b: Block, after: set<Block>) {
    && Got(p, live, after, size, at, b)
    && Canonical(live, free, p.top)
    && (at != 0 <==> CanPlace(p, live, size))
    && (at != 0 ==> InPool(b, p.top) && WhollyFree(live, b) && CutFromSmallest(free, b))
  }

  /** mdl_buddy_alloc(), as one of a group that started from `live0`. */
  method AllocOne(a: Allocator, size: nat, ghost live0: set<Block>, ghost mem0: Memory) returns (at: nat, ghost b: Block)
    requires a.Valid() && live0 <= a.live && OnlyFreeWritten(a.Geometry(), mem0, a.mem, live0)
    modifies a`mem, a`lists, a`free, a`live, a.heads, a.table
    ensures a.Valid() && Tried(a.Geometry(), old(a.live), old(a.free), size, at, b, a.live)
    ensures OnlyFreeWritten(a.Geometry(), mem0, a.mem, live0)
  {
    hide Canonical, Linked, Recorded, OnlyFreeWritten, CanPlace, TotalWidth, Power2, CutFromSmallest, WhollyFree;
    at, b := a.Alloc(size);
    WrittenElsewhere(a.Geometry(), mem0, old(a.mem), a.mem, live0, a.live);
  }

  /** mdl_buddy_free() of what that call returned, null included. */
  method FreeOne(a: Allocator, at: nat, ghost b: Block, ghost live0: set<Block>, ghost mem0: Memory)
    requires a.Valid() && OnlyFreeWritten(a.Geometry(), mem0, a.mem, live0)
    requires at != 0 ==> b in a.live && b !in live0 && at == AddrOf(a.Geometry(), b)
    requires live0 <= a.live
    modifies a`mem, a`lists, a`free, a`live, a.heads, a.table
    ensures a.Valid() && a.live == old(a.live) - (if at == 0 then {} else {b})
    ensures OnlyFreeWritten(a.Geometry(), mem0, a.mem, live0)
  {
    hide Canonical, Linked, Recorded, OnlyFreeWritten, TotalWidth, Power2;
    NeverNull(a.Geometry());
    a.Free(at);
    WrittenElsewhere(a.Geometry(), mem0, old(a.mem), a.mem, live0, a.live);
  }

  lemma NeverNull(p: Pool)
    ensures p.base > 0 ==> forall b: Block :: AddrOf(p, b) != 0
  {
  }

  /** Best fit in any order takes all three exactly when there is room for the three at once. */
  lemma ThreeTries(p: Pool, live: seq<set<Block>>, free: seq<set<Block>>, sizes: seq<nat>, at: seq<nat>, b: seq<Block>)
    requires |live| == 4 && |free| == |sizes| == |at| == |b| == 3
    requires forall i :: 0 <= i < 3 ==> Tried(p, live[i], free[i], sizes[i], at[i], b[i], live[i + 1])
    ensures at[0] != 0 && at[1] != 0 && at[2] != 0 <==> CanAcquire(p, live[0], sizes[0], sizes[1], sizes[2])
  {
    hide Canonical, CutFromSmallest, WhollyFree, InPool, Room, IsLevelFor;
    if CanAcquire(p, live[0], sizes[0], sizes[1], sizes[2]) {
      var lt: nat, ld: nat, lh: nat :|
        IsLevelFor(p.minOrder, sizes[0], lt) && IsLevelFor(p.minOrder, sizes[1], ld) && IsLevelFor(p.minOrder, sizes[2], lh)
        && Room(live[0], p.top, [lt, ld, lh]);
      TryTakes(p, live[0], free[0], sizes[0], at[0], b[0], live[1], [lt, ld, lh]);
      assert [lt, ld, lh][1..] == [ld, lh];
      TryTakes(p, live[1], free[1], sizes[1], at[1], b[1], live[2], [ld, lh]);
      assert [ld, lh][1..] == [lh];
      TryTakes(p, live[2], free[2], sizes[2], at[2], b[2], live[3], [lh]);
    }
    if at[0] != 0 && at[1] != 0 && at[2] != 0 {
      NoRoomNeeded(live[3], p.top);
      TakenWereRoom(live[2], p.top, b[2], []);
      TakenWereRoom(live[1], p.top, b[1], [b[2].level] + []);
      TakenWereRoom(live[0], p.top, b[0], [b[1].level] + ([b[2].level] + []));
      assert [b[0].level] + ([b[1].level] + ([b[2].level] + [])) == [b[0].level, b[1].level, b[2].level];
      assert forall i :: 0 <= i < 3 ==> CanPlace(p, live[i], sizes[i]);
      assert 0 < sizes[0] && 0 < sizes[1] && 0 < sizes[2];
    }
  }

  lemma TryTakes(p: Pool, live: set<Block>, free: set<Block>, size: nat, at: nat, b: Block, after: set<Block>, levels: seq<nat>)
    requires Tried(p, live, free, size, at, b, after) && 0 < size
    requires levels != [] && IsLevelFor(p.minOrder, size, levels[0]) && Room(live, p.top, levels)
    ensures at != 0 && Room(after, p.top, levels[1..])
  {
    hide Canonical, CutFromSmallest, WhollyFree, InPool, Room, IsLevelFor;
    var x := RoomForEach(live, p.top, levels, 0);
    assert CanPlace(p, live, size);
    LevelUnique(p.minOrder, size, b.level, levels[0]);
    BestFitLeavesRoom(live, free, p.top, levels, b);
  }

  /** The three allocations of mdl_arena_acquire(), taken back unless all succeed. */
  method TakeThree(a: Allocator, textBytes: nat, dataBytes: nat, total: nat)
    returns (ok: bool, text: nat, data: nat, hs: nat, ghost bt: Block, ghost bd: Block, ghost bh: Block)
    requires a.Valid()
    modifies a`mem, a`lists, a`free, a`live, a.heads, a.table
    ensures a.Valid()
    ensures ok <==> CanAcquire(a.Geometry(), old(a.live), textBytes, dataBytes, total)
    ensures !ok ==> a.live == old(a.live) && a.free == old(a.free)
    ensures ok ==> a.live == old(a.live) + {bt, bd, bh} && {bt, bd, bh} !! old(a.live) && bt != bd && bt != bh && bd != bh
    ensures ok ==> text == AddrOf(a.Geometry(), bt) && data == AddrOf(a.Geometry(), bd) && hs == AddrOf(a.Geometry(), bh)
    ensures ok ==> IsLevelFor(a.minOrder, textBytes, bt.level) && bt.level <= a.maxOrder - a.minOrder
    ensures ok ==> IsLevelFor(a.minOrder, dataBytes, bd.level) && bd.level <= a.maxOrder - a.minOrder
    ensures ok ==> IsLevelFor(a.minOrder, total, bh.level) && bh.level <= a.maxOrder - a.minOrder
    ensures OnlyFreeWritten(a.Geometry(), old(a.mem), a.mem, old(a.live))
  {
    hide Canonical, Linked, Listed, Recorded, OnlyFreeWritten, CanPlace, TotalWidth, Power2, CutFromSmallest, WhollyFree, InPool, CanAcquire,
      IsLevelFor, AddrOf;
    ghost var p, live0, free0, mem0 := a.Geometry(), a.live, a.free, a.mem;
    NothingWritten(p, mem0, live0);
    text, bt := AllocOne(a, textBytes, live0, mem0);
    ghost var live1, free1 := a.live, a.free;
    data, bd := AllocOne(a, dataBytes, live0, mem0);
    ghost var live2, free2 := a.live, a.free;
    hs, bh := AllocOne(a, total, live0, mem0);
    ThreeTries(p, [live0, live1, live2, a.live], [free0, free1, free2], [textBytes, dataBytes, total], [text, data, hs], [bt, bd, bh]);
    ok := text != 0 && data != 0 && hs != 0;
    if !ok {
      FreeOne(a, text, bt, live0, mem0);
      FreeOne(a, data, bd, live0, mem0);
      FreeOne(a, hs, bh, live0, mem0);
      SameAgain(a, live0, free0);
    }
  }

  lemma SameAgain(a: Allocator, live0: set<Block>, free0: set<Block>)
    requires a.Valid() && a.live == live0 && Canonical(live0, free0, a.Geometry().top)
    ensures a.free == free0
  {
    hide Canonical, Linked, Listed, Recorded, TotalWidth, Power2;
    FreeSetDependsOnLiveOnly(live0, a.free, free0, a.Geometry().top);
  }

  /** mdl_arena_acquire() */
  method Acquire(a: Allocator, m: Module, y: Layout, textBytes: nat, dataBytes: nat) returns (ok: bool)
    requires a.Valid()
    modifies a`mem, a`lists, a`free, a`live, a.heads, a.table
    modifies m`textLo, m`textHi, m`dataLo, m`dataHi, m`heapStackLo, m`heapStackHi, m`guardLo, m`guardHi
    modifies m`arenaHeld, m`text, m`data, m`heapStack
    ensures a.Valid()
    ensures ok <==> CanAcquire(a.Geometry(), old(a.live), textBytes, dataBytes, y.Total())
    ensures !ok ==> a.live == old(a.live) && a.free == old(a.free) && unchanged(m)
    ensures ok ==> m.arenaHeld && Placed(a.Geometry(), a.live, y, m)
    ensures ok ==> a.live == old(a.live) + {m.text, m.data, m.heapStack} && {m.text, m.data, m.heapStack} !! old(a.live)
    ensures ok ==> m.textLo + textBytes <= m.textHi && m.dataLo + dataBytes <= m.dataHi
    ensures ok ==> Sized(a.Geometry(), m, textBytes, dataBytes, y.heap + y.guard + y.stack)
    ensures OnlyFreeWritten(a.Geometry(), old(a.mem), a.mem, old(a.live))
  {
    hide Canonical, Linked, Listed, Recorded, OnlyFreeWritten, TotalWidth, Power2, CanAcquire, AddrOf, IsLevelFor;
    var text, data, hs;
    ghost var bt, bd, bh;
    ok, text, data, hs, bt, bd, bh := TakeThree(a, textBytes, dataBytes, y.Total());
    if ok {
      Assign(a, m, y, text, data, hs, textBytes, dataBytes, bt, bd, bh);
    }
  }

  // ---- would_fit against acquire -----------------------------------------

  lemma {:induction false} LevelExists(minOrder: nat, size: nat, most: nat) returns (level: nat)
    requires size <= Power2(minOrder + most)
    ensures level <= most && IsLevelFor(minOrder, size, level)
  {
    if most == 0 || Power2(minOrder + most - 1) < size {
      level := most;
    } else {
      level := LevelExists(minOrder, size, most - 1);
    }
  }

  lemma FitsInside(p: Pool, live: set<Block>, f: Block, size: nat)
    requires InPool(f, p.top) && WhollyFree(live, f) && size <= Power2(p.minOrder + f.level)
    ensures FitsAlone(p, live, size)
  {
    var level := LevelExists(p.minOrder, size, f.level);
    var b := LowestInside(live, f, level, p.top);
  }

  /**
   When all that is free is one block of the size the heap and stack need, each of the three
   requests fits and the three together do not, whatever the text and data that would fit.
   */
  lemma WouldFitIsNotEnough(p: Pool, live: set<Block>, f: Block, textBytes: nat, dataBytes: nat, total: nat)
    requires Canonical(live, {f}, p.top) && IsLevelFor(p.minOrder, total, f.level)
    requires textBytes <= Power2(p.minOrder + f.level) && dataBytes <= Power2(p.minOrder + f.level)
    ensures AllFitAlone(p, live, textBytes, dataBytes, total) && !RoomForThree(p, live, textBytes, dataBytes, total)
  {
    hide Power2, IsLevelFor, Encloses, FitsAlone, InPool, WhollyFree, Canonical, Clear;
    FreeIsInPool(live, {f}, f, p.top);
    FitsInside(p, live, f, textBytes);
    FitsInside(p, live, f, dataBytes);
    WithinSize(p.minOrder, total, f.level);
    FitsInside(p, live, f, total);
    if RoomForThree(p, live, textBytes, dataBytes, total) {
      var lt: nat, ld: nat, lh: nat :|
        IsLevelFor(p.minOrder, textBytes, lt) && IsLevelFor(p.minOrder, dataBytes, ld) && IsLevelFor(p.minOrder, total, lh)
        && Room(live, p.top, [lt, ld, lh]);
      LevelUnique(p.minOrder, total, lh, f.level);
      OnlyOneOfSize(live, f, p.top, lt, ld);
      assert false;
    }
  }

  lemma WithinSize(minOrder: nat, size: nat, level: nat)
    requires IsLevelFor(minOrder, size, level)
    ensures size <= Power2(minOrder + level)
  {
  }

  lemma OnlyOneOfSize(live: set<Block>, f: Block, top: nat, lt: nat, ld: nat)
    requires Canonical(live, {f}, top)
    ensures !Room(live, top, [lt, ld, f.level])
  {
    hide Power2, Encloses, InPool, WhollyFree, Canonical, Clear;
    if Room(live, top, [lt, ld, f.level]) {
      var items: seq<Block> :| SideBySide(live, top, items) && OfLevels(items, [lt, ld, f.level]);
      var g := WhollyFreeIsEnclosed(live, {f}, items[0], top);
      var h := WhollyFreeIsEnclosed(live, {f}, items[2], top);
      SameLevelInside(f, items[2]);
      NotClearInside(items[2], items[0]);
      ClearSymmetric(items[0], items[2]);
      assert false;
    }
  }

  lemma HalfIsAClass(base: nat, minOrder: nat, maxOrder: nat)
    requires minOrder < maxOrder
    ensures IsLevelFor(minOrder, Power2(maxOrder - 1), maxOrder - 1 - minOrder)
    ensures CanPlace(Pool(base, minOrder, maxOrder - minOrder), {}, Power2(maxOrder - 1))
  {
    var level := maxOrder - 1 - minOrder;
    if level > 0 {
      WidthStrict(maxOrder - 2, maxOrder - 1);
    }
    assert Ancestor(0, 1) == 0;
    assert InPool(Block(level, 0), maxOrder - minOrder) && WhollyFree({}, Block(level, 0));
  }

  /** Two halves of the pool, one live: the other is all that is free. */
  lemma OtherHalfIsFree(b: Block, free: set<Block>, top: nat)
    requires top > 0 && Canonical({b}, free, top) && b.level == top - 1
    ensures free == {Buddy(b)}
  {
    var whole := Block(top, 0);
    WholePoolCanonical(top);
    assert {} + {whole} == {whole};
    SplitPartition({whole}, whole, top);
    assert b in {b} + free && InPool(b, top);
    assert Ancestor(b.index, 1) == b.index / 2;
    assert {whole} - {whole} + {Lower(whole), Upper(whole)} == {b} + {Buddy(b)};
    assert Canonical({b}, {Buddy(b)}, top);
    FreeSetDependsOnLiveOnly({b}, free, {Buddy(b)}, top);
  }

  lemma HalfTaken(a: Allocator, b: Block, y: Layout)
    requires a.Valid() && a.minOrder < a.maxOrder && a.live == {b} && y.Total() == Power2(a.maxOrder - 1)
    requires IsLevelFor(a.minOrder, Power2(a.maxOrder - 1), b.level)
    ensures AllFitAlone(a.Geometry(), a.live, 1, 1, y.Total()) && !RoomForThree(a.Geometry(), a.live, 1, 1, y.Total())
  {
    hide Canonical, Linked, Listed, Recorded, TotalWidth, AllFitAlone, RoomForThree, IsLevelFor, Power2;
    HalfIsAClass(a.base, a.minOrder, a.maxOrder);
    LevelUnique(a.minOrder, Power2(a.maxOrder - 1), b.level, a.maxOrder - 1 - a.minOrder);
    OtherHalfIsFree(b, a.free, a.maxOrder - a.minOrder);
    AtLeastOne(a.maxOrder - 1);
    WouldFitIsNotEnough(a.Geometry(), a.live, Buddy(b), 1, 1, y.Total());
  }

  lemma AtLeastOne(n: nat)
    ensures 1 <= Power2(n)
  {
  }

  /** A pool with one half taken. */
  method HalfPool(minOrder: nat, maxOrder: nat, base: nat) returns (a: Allocator, ghost b: Block)
    requires 0 < minOrder < maxOrder && base > 0 && base % Power2(maxOrder) == 0
    ensures a.Valid() && fresh(a) && fresh(a.heads) && fresh(a.table) && a.minOrder == minOrder && a.maxOrder == maxOrder
    ensures a.live == {b} && IsLevelFor(minOrder, Power2(maxOrder - 1), b.level)
  {
    hide Canonical, Linked, Listed, Recorded, TotalWidth, Power2, IsLevelFor, CanPlace, WhollyFree, InPool, CutFromSmallest, OnlyFreeWritten, AddrOf;
    a := new Allocator(minOrder, maxOrder, base);
    HalfIsAClass(base, minOrder, maxOrder);
    var at;
    at, b := a.Alloc(Power2(maxOrder - 1));
  }

  /** So it happens: on such a pool the cheap check says yes and acquiring fails. */
  method Misled(minOrder: nat, maxOrder: nat, base: nat, y: Layout, m: Module) returns (fits: bool, ok: bool)
    requires 0 < minOrder < maxOrder && base > 0 && base % Power2(maxOrder) == 0 && y.Total() == Power2(maxOrder - 1)
    modifies m
    ensures fits && !ok
  {
    hide Allocator.Valid, Power2, AllFitAlone, RoomForThree, IsLevelFor, Placed, OnlyFreeWritten;
    var a, b := HalfPool(minOrder, maxOrder, base);
    HalfTaken(a, b, y);
    var need;
    fits, need := WouldFit(a, y, 1, 1);
    ok := Acquire(a, m, y, 1, 1);
  }

  /** The bounds mdl_arena_acquire() writes into the module. */
  method Assign(a: Allocator, m: Module, y: Layout, text: nat, data: nat, hs: nat, textBytes: nat, dataBytes: nat,
                ghost bt: Block, ghost bd: Block, ghost bh: Block)
    requires a.Valid()
    requires text == AddrOf(a.Geometry(), bt) && data == AddrOf(a.Geometry(), bd) && hs == AddrOf(a.Geometry(), bh)
    requires bt in a.live && bd in a.live && bh in a.live && bt != bd && bt != bh && bd != bh
    requires IsLevelFor(a.minOrder, textBytes, bt.level) && bt.level <= a.maxOrder - a.minOrder
    requires IsLevelFor(a.minOrder, dataBytes, bd.level) && bd.level <= a.maxOrder - a.minOrder
    requires IsLevelFor(a.minOrder, y.Total(), bh.level) && bh.level <= a.maxOrder - a.minOrder
    modifies m`textLo, m`textHi, m`dataLo, m`dataHi, m`heapStackLo, m`heapStackHi, m`guardLo, m`guardHi
    modifies m`arenaHeld, m`text, m`data, m`heapStack
    ensures m.arenaHeld && Placed(a.Geometry(), a.live, y, m)
    ensures m.text == bt && m.data == bd && m.heapStack == bh
    ensures m.textLo + textBytes <= m.textHi && m.dataLo + dataBytes <= m.dataHi
  {
    hide Allocator.Valid, Power2, IsLevelFor, AddrOf;
    Ordered(a);
    var t := SizeOfBlock(a, textBytes, bt);
    var d := SizeOfBlock(a, dataBytes, bd);
    var h := SizeOfBlock(a, y.Total(), bh);
    m.text, m.data, m.heapStack := bt, bd, bh;
    m.textLo, m.dataLo, m.heapStackLo := text, data, hs;
    m.textHi, m.dataHi, m.heapStackHi := text + t, data + d, hs + h;
    m.guardLo := m.heapStackLo + y.heap;
    m.guardHi := m.guardLo + y.guard;
    m.arenaHeld := true;
  }

  lemma Ordered(a: Allocator)
    requires a.Valid()
    ensures a.minOrder <= a.maxOrder
  {
  }

  /** mdl_buddy_block_size() of a request is the size of the block it was given. */
  method SizeOfBlock(a: Allocator, size: nat, ghost b: Block) returns (bytes: nat)
    requires a.Valid() && IsLevelFor(a.minOrder, size, b.level) && b.level <= a.maxOrder - a.minOrder
    ensures bytes == SizeOf(a.Geometry(), b) && size <= bytes
  {
    hide Canonical, Linked, Listed, Recorded, TotalWidth, Power2;
    bytes := a.BlockSize(size);
    RoundedIs(a.Geometry(), size, bytes, b);
  }

  lemma RoundedIs(p: Pool, size: nat, bytes: nat, b: Block)
    requires IsLevelFor(p.minOrder, size, b.level) && b.level <= p.top
    requires bytes == 0 <==> size > Power2(p.minOrder + p.top)
    requires bytes != 0 ==>
      exists level: nat :: p.minOrder + level <= p.minOrder + p.top && IsLevelFor(p.minOrder, size, level) && bytes == Power2(p.minOrder + level)
    ensures bytes == SizeOf(p, b) && size <= bytes
  {
    WidthGrows(p.minOrder + b.level, p.minOrder + p.top);
    var level: nat :| IsLevelFor(p.minOrder, size, level) && bytes == Power2(p.minOrder + level);
    LevelUnique(p.minOrder, size, level, b.level);
  }

  /** The three frees of mdl_arena_release(). */
  method FreeThree(a: Allocator, text: nat, data: nat, hs: nat, ghost bt: Block, ghost bd: Block, ghost bh: Block)
    requires a.Valid() && {bt, bd, bh} <= a.live && bt != bd && bt != bh && bd != bh
    requires text == AddrOf(a.Geometry(), bt) && data == AddrOf(a.Geometry(), bd) && hs == AddrOf(a.Geometry(), bh)
    modifies a`mem, a`lists, a`free, a`live, a.heads, a.table
    ensures a.Valid() && a.live == old(a.live) - {bt, bd, bh}
    ensures OnlyFreeWritten(a.Geometry(), old(a.mem), a.mem, a.live)
  {
    hide Canonical, Linked, Listed, Recorded, OnlyFreeWritten, TotalWidth, Power2, AddrOf;
    ghost var rest, mem0 := a.live - {bt, bd, bh}, a.mem;
    NeverNull(a.Geometry());
    NothingWritten(a.Geometry(), mem0, rest);
    FreeOne(a, text, bt, rest, mem0);
    FreeOne(a, data, bd, rest, mem0);
    FreeOne(a, hs, bh, rest, mem0);
    assert a.live == rest;
  }

  /** mdl_arena_release() */
  method Release(a: Allocator, m: Module, y: Layout)
    requires a.Valid() && (m.arenaHeld ==> Placed(a.Geometry(), a.live, y, m))
    modifies a`mem, a`lists, a`free, a`live, a.heads, a.table
    modifies m`textLo, m`textHi, m`dataLo, m`dataHi, m`heapStackLo, m`heapStackHi, m`guardLo, m`guardHi, m`arenaHeld
    ensures a.Valid() && a.live == old(a.live) - old(BlocksOf(m))
    ensures OnlyFreeWritten(a.Geometry(), old(a.mem), a.mem, a.live)
    ensures !m.arenaHeld
    ensures old(m.arenaHeld) ==> m.textLo == m.textHi == m.dataLo == m.dataHi == m.heapStackLo == m.heapStackHi == m.guardLo == m.guardHi == 0
    ensures !old(m.arenaHeld) ==> unchanged(m) && unchanged(a)
  {
    hide Canonical, Linked, Listed, Recorded, OnlyFreeWritten, TotalWidth, Power2, AddrOf;
    NothingWritten(a.Geometry(), a.mem, a.live);
    if !m.arenaHeld {
      return;
    }
    FreeThree(a, m.textLo, m.dataLo, m.heapStackLo, m.text, m.data, m.heapStack);
    m.textLo, m.textHi, m.dataLo, m.dataHi := 0, 0, 0, 0;
    m.heapStackLo, m.heapStackHi, m.guardLo, m.guardHi := 0, 0, 0, 0;
    m.arenaHeld := false;
  }

  // ---- who owns an address ---------------------------------------------

  /** 32-bit subtraction. */
  function Minus32(a: nat, b: nat): nat
    requires a < 0x1_0000_0000 && b < 0x1_0000_0000
  {
    (a - b) % 0x1_0000_0000
  }

  /** ptr_in_range() */
  predicate PtrInRange(at: nat, len: nat, lo: nat, hi: nat)
    requires at < 0x1_0000_0000 && len < 0x1_0000_0000 && lo < 0x1_0000_0000 && hi < 0x1_0000_0000
  {
    len <= Minus32(hi, lo) && at >= lo && at <= Minus32(hi, len)
  }

  /** For ranges that do not run backwards the test means what it says, with no wrap. */
  lemma PtrInRangeMeans(at: nat, len: nat, lo: nat, hi: nat)
    requires at < 0x1_0000_0000 && len < 0x1_0000_0000 && lo <= hi < 0x1_0000_0000
    ensures PtrInRange(at, len, lo, hi) <==> lo <= at && at + len <= hi
  {
  }

  /** ptr_owned_by_module(), for a caller that has been identified. */
  predicate PtrOwned(m: Module, y: Layout, at: nat, len: nat)
    requires at < 0x1_0000_0000 && len < 0x1_0000_0000
    requires m.textHi < 0x1_0000_0000 && m.dataHi < 0x1_0000_0000 && m.heapStackHi < 0x1_0000_0000
    requires m.textLo <= m.textHi && m.dataLo <= m.dataHi && m.heapStackLo + y.heap + y.guard <= m.heapStackHi
    reads m
  {
    len == 0
    || PtrInRange(at, len, m.textLo, m.textHi)
    || PtrInRange(at, len, m.dataLo, m.dataHi)
    || PtrInRange(at, len, m.heapStackLo, m.heapStackLo + y.heap)
    || PtrInRange(at, len, m.heapStackLo + y.heap + y.guard, m.heapStackHi)
  }

  predicate Apart(lo: nat, hi: nat, lo': nat, hi': nat) {
    hi <= lo' || hi' <= lo
  }

  /** Live blocks lie apart in memory and inside the pool. */
  lemma LiveBlocksApart(p: Pool, live: set<Block>, free: set<Block>, a: Block, b: Block)
    requires Canonical(live, free, p.top) && a in live && b in live && a != b
    ensures Apart(AddrOf(p, a), EndOf(p, a), AddrOf(p, b), EndOf(p, b))
    ensures p.base <= AddrOf(p, a) && EndOf(p, a) <= p.base + Power2(p.minOrder + p.top)
  {
    assert a in live + free && b in live + free;
    ApartInBytes(p, a, b);
    InPoolIsInterval(a, p.top);
    InPoolBytes(p, a);
  }

  /** A placed module's blocks lie apart from each other and from any block it does not hold. */
  lemma PlacedApart(a: Allocator, m: Module, y: Layout, other: Block)
    requires a.Valid() && Placed(a.Geometry(), a.live, y, m) && other in a.live && other !in {m.text, m.data, m.heapStack}
    ensures var p := a.Geometry();
            && Apart(m.textLo, m.textHi, m.dataLo, m.dataHi)
            && Apart(m.textLo, m.textHi, AddrOf(p, other), EndOf(p, other))
            && Apart(m.dataLo, m.dataHi, AddrOf(p, other), EndOf(p, other))
            && Apart(m.heapStackLo, m.heapStackHi, AddrOf(p, other), EndOf(p, other))
  {
    hide Canonical, Linked, Listed, Recorded, TotalWidth, Power2, AddrOf, EndOf, Apart;
    var p := a.Geometry();
    LiveBlocksApart(p, a.live, a.free, m.text, m.data);
    LiveBlocksApart(p, a.live, a.free, m.text, other);
    LiveBlocksApart(p, a.live, a.free, m.data, other);
    LiveBlocksApart(p, a.live, a.free, m.heapStack, other);
  }

  /** The bounds of a placed module are those of blocks inside the pool, text and data apart. */
  lemma PlacedInPool(a: Allocator, m: Module, y: Layout)
    requires a.Valid() && Placed(a.Geometry(), a.live, y, m)
    ensures m.textLo <= m.textHi <= a.base + Power2(a.maxOrder) && m.dataLo <= m.dataHi <= a.base + Power2(a.maxOrder)
    ensures m.heapStackLo + y.heap + y.guard <= m.heapStackHi <= a.base + Power2(a.maxOrder)
    ensures Apart(m.textLo, m.textHi, m.dataLo, m.dataHi)
  {
    hide Canonical, Linked, Listed, Recorded, TotalWidth, Power2, AddrOf, Apart;
    var p := a.Geometry();
    LiveBlocksApart(p, a.live, a.free, m.text, m.data);
    LiveBlocksApart(p, a.live, a.free, m.data, m.text);
    LiveBlocksApart(p, a.live, a.free, m.heapStack, m.text);
  }

  /**
   A buffer passes for the caller exactly when it is empty or lies wholly inside one of the four
   ranges the module may use: its text, its data, its heap below the guard band, its stack above it.
   */
  lemma OwnedIff(a: Allocator, m: Module, y: Layout, at: nat, len: nat)
    requires a.Valid() && Placed(a.Geometry(), a.live, y, m)
    requires a.base + Power2(a.maxOrder) < 0x1_0000_0000 && at < 0x1_0000_0000 && len < 0x1_0000_0000
    ensures m.textLo <= m.textHi < 0x1_0000_0000 && m.dataLo <= m.dataHi < 0x1_0000_0000
    ensures m.heapStackLo + y.heap + y.guard <= m.heapStackHi < 0x1_0000_0000
    ensures PtrOwned(m, y, at, len) <==>
            || len == 0
            || (m.textLo <= at && at + len <= m.textHi)
            || (m.dataLo <= at && at + len <= m.dataHi)
            || (m.heapStackLo <= at && at + len <= m.guardLo)
            || (m.guardHi <= at && at + len <= m.heapStackHi)
    ensures m.guardLo == m.heapStackLo + y.heap && m.guardHi == m.guardLo + y.guard
  {
    hide Canonical, Linked, Listed, Recorded, TotalWidth, Power2, PtrInRange;
    PlacedInPool(a, m, y);
    PtrInRangeMeans(at, len, m.textLo, m.textHi);
    PtrInRangeMeans(at, len, m.dataLo, m.dataHi);
    PtrInRangeMeans(at, len, m.heapStackLo, m.heapStackLo + y.heap);
    PtrInRangeMeans(at, len, m.heapStackLo + y.heap + y.guard, m.heapStackHi);
  }

  /** A buffer that passes for the caller touches no guard band and no other module's memory. */
  lemma OwnedIsExclusive(a: Allocator, m: Module, y: Layout, at: nat, len: nat, other: Block)
    requires a.Valid() && Placed(a.Geometry(), a.live, y, m)
    requires a.base + Power2(a.maxOrder) < 0x1_0000_0000 && at < 0x1_0000_0000 && 0 < len < 0x1_0000_0000
    ensures m.textLo <= m.textHi < 0x1_0000_0000 && m.dataLo <= m.dataHi < 0x1_0000_0000
    ensures m.heapStackLo + y.heap + y.guard <= m.heapStackHi < 0x1_0000_0000
    ensures PtrOwned(m, y, at, len) ==> Apart(at, at + len, m.guardLo, m.guardHi)
    ensures PtrOwned(m, y, at, len) && other in a.live && other !in {m.text, m.data, m.heapStack} ==>
              Apart(at, at + len, AddrOf(a.Geometry(), other), EndOf(a.Geometry(), other))
  {
    hide Canonical, Linked, Listed, Recorded, TotalWidth, Power2, PtrOwned;
    OwnedIff(a, m, y, at, len);
    var p := a.Geometry();
    LiveBlocksApart(p, a.live, a.free, m.heapStack, m.text);
    LiveBlocksApart(p, a.live, a.free, m.heapStack, m.data);
    if other in a.live && other !in {m.text, m.data, m.heapStack} {
      LiveBlocksApart(p, a.live, a.free, m.text, other);
      LiveBlocksApart(p, a.live, a.free, m.data, other);
      LiveBlocksApart(p, a.live, a.free, m.heapStack, other);
    }
  }
}
