/**
 The allocator's free lists as pure values: one list head per order, link words in the
 free blocks themselves, and the blocks each list is made of.
 */
module BuddyLists {
  import opened Arithmetic
  import opened BuddyBlocks
  import opened FreeList

  /** Where a pool lies: 2^top units of 2^minOrder bytes, from a non-null base. */
  datatype Pool = Pool(base: nat, minOrder: nat, top: nat)

  function AddrOf(p: Pool, b: Block): nat {
    p.base + FirstUnit(b) * Power2(p.minOrder)
  }

  function Addrs(p: Pool, blocks: seq<Block>): (s: seq<nat>)
    ensures |s| == |blocks|
  {
    seq(|blocks|, i requires 0 <= i < |blocks| => AddrOf(p, blocks[i]))
  }

  lemma AddrInjective(p: Pool, a: Block, b: Block)
    ensures AddrOf(p, a) == AddrOf(p, b) <==> FirstUnit(a) == FirstUnit(b)
  {
    var w, x, y := Power2(p.minOrder), FirstUnit(a), FirstUnit(b);
    if x < y {
      OneMore(x, w);
      MulMonotone(x + 1, y, w);
    } else if y < x {
      OneMore(y, w);
      MulMonotone(y + 1, x, w);
    }
  }

  /** No two listed blocks start at the same unit. */
  ghost predicate Apart(lists: seq<seq<Block>>) {
    forall l, k, m, n | 0 <= l < |lists| && 0 <= k < |lists[l]| && 0 <= m < |lists| && 0 <= n < |lists[m]| ::
      FirstUnit(lists[l][k]) == FirstUnit(lists[m][n]) ==> l == m && k == n
  }

  ghost predicate Leveled(lists: seq<seq<Block>>) {
    forall l, k :: 0 <= l < |lists| && 0 <= k < |lists[l]| ==> lists[l][k].level == l
  }

  /** Memory and heads spell out exactly these lists. */
  ghost predicate Linked(p: Pool, mem: Memory, heads: seq<nat>, lists: seq<seq<Block>>) {
    && |heads| == |lists|
    && Leveled(lists) && Apart(lists)
    && forall l :: 0 <= l < |lists| ==> Chain(mem, heads[l], Addrs(p, lists[l]))
  }

  /** The lists hold exactly the blocks of `free`. */
  ghost predicate Listed(lists: seq<seq<Block>>, free: set<Block>) {
    forall b: Block :: b in free <==> b.level < |lists| && b in lists[b.level]
  }

  /** `b` starts where no listed block does. */
  ghost predicate Unlisted(lists: seq<seq<Block>>, b: Block) {
    forall l, k :: 0 <= l < |lists| && 0 <= k < |lists[l]| ==> FirstUnit(lists[l][k]) != FirstUnit(b)
  }

  lemma AddrNotIn(p: Pool, lists: seq<seq<Block>>, l: nat, b: Block)
    requires l < |lists| && Unlisted(lists, b)
    ensures AddrOf(p, b) !in Addrs(p, lists[l])
  {
    forall k | 0 <= k < |lists[l]|
      ensures Addrs(p, lists[l])[k] != AddrOf(p, b)
    {
      AddrInjective(p, lists[l][k], b);
    }
  }

  lemma AddrsNoRepeats(p: Pool, lists: seq<seq<Block>>, l: nat)
    requires l < |lists| && Apart(lists)
    ensures NoRepeats(Addrs(p, lists[l]))
  {
    forall i, j | 0 <= i < j < |lists[l]|
      ensures Addrs(p, lists[l])[i] != Addrs(p, lists[l])[j]
    {
      AddrInjective(p, lists[l][i], lists[l][j]);
    }
  }

  lemma PushLinked(p: Pool, mem: Memory, heads: seq<nat>, lists: seq<seq<Block>>, b: Block)
    requires Linked(p, mem, heads, lists) && b.level < |lists| && Unlisted(lists, b) && p.base > 0
    ensures Linked(p, mem[AddrOf(p, b) := heads[b.level]], heads[b.level := AddrOf(p, b)],
                   lists[b.level := [b] + lists[b.level]])
  {
    var a := AddrOf(p, b);
    var lists' := lists[b.level := [b] + lists[b.level]];
    forall l | 0 <= l < |lists|
      ensures Chain(mem[a := heads[b.level]], heads[b.level := a][l], Addrs(p, lists'[l]))
    {
      AddrNotIn(p, lists, l, b);
      if l == b.level {
        ChainPush(mem, heads[l], Addrs(p, lists[l]), a);
        assert Addrs(p, lists'[l]) == [a] + Addrs(p, lists[l]);
      } else {
        ChainFrame(mem, heads[l], Addrs(p, lists[l]), a, heads[b.level]);
      }
    }
    PushApart(lists, b);
  }

  lemma PushApart(lists: seq<seq<Block>>, b: Block)
    requires b.level < |lists| && Unlisted(lists, b) && Apart(lists) && Leveled(lists)
    ensures Apart(lists[b.level := [b] + lists[b.level]]) && Leveled(lists[b.level := [b] + lists[b.level]])
  {
    var t := lists[b.level := [b] + lists[b.level]];
    forall l, k, m, n | 0 <= l < |t| && 0 <= k < |t[l]| && 0 <= m < |t| && 0 <= n < |t[m]|
                        && FirstUnit(t[l][k]) == FirstUnit(t[m][n])
      ensures l == m && k == n
    {
      var k' := if l == b.level then k - 1 else k;
      var n' := if m == b.level then n - 1 else n;
      assert k' >= 0 ==> t[l][k] == lists[l][k'];
      assert n' >= 0 ==> t[m][n] == lists[m][n'];
    }
  }

  lemma PushListed(lists: seq<seq<Block>>, free: set<Block>, b: Block)
    requires Listed(lists, free) && b.level < |lists|
    ensures Listed(lists[b.level := [b] + lists[b.level]], free + {b})
  {
  }

  function Without<T>(s: seq<T>, k: nat): seq<T>
    requires k < |s|
  {
    s[..k] + s[k + 1..]
  }

  lemma DropApart(lists: seq<seq<Block>>, l: nat, k: nat)
    requires l < |lists| && k < |lists[l]| && Apart(lists) && Leveled(lists)
    ensures Apart(lists[l := Without(lists[l], k)]) && Leveled(lists[l := Without(lists[l], k)])
    ensures Unlisted(lists[l := Without(lists[l], k)], lists[l][k])
  {
    var t := lists[l := Without(lists[l], k)];
    forall m, n | 0 <= m < |t| && 0 <= n < |t[m]|
      ensures t[m][n] == lists[m][if m == l && n >= k then n + 1 else n]
    {
    }
  }

  lemma DropListed(lists: seq<seq<Block>>, free: set<Block>, l: nat, k: nat)
    requires l < |lists| && k < |lists[l]| && Listed(lists, free) && Apart(lists) && Leveled(lists)
    ensures Listed(lists[l := Without(lists[l], k)], free - {lists[l][k]})
  {
    var t := lists[l := Without(lists[l], k)];
    var gone := lists[l][k];
    DropApart(lists, l, k);
    forall b: Block
      ensures b in free - {gone} <==> b.level < |t| && b in t[b.level]
    {
      if b in free && b != gone {
        var n :| 0 <= n < |lists[b.level]| && lists[b.level][n] == b;
        if b.level == l {
          assert t[l][if n < k then n else n - 1] == b;
        }
      }
      if b.level < |t| && b in t[b.level] {
        var n :| 0 <= n < |t[b.level]| && t[b.level][n] == b;
        assert b in lists[b.level];
      }
    }
  }

  lemma PopLinked(p: Pool, mem: Memory, heads: seq<nat>, lists: seq<seq<Block>>, l: nat)
    requires Linked(p, mem, heads, lists) && l < |lists| && lists[l] != []
    ensures heads[l] == AddrOf(p, lists[l][0]) && heads[l] in mem
    ensures Linked(p, mem, heads[l := mem[heads[l]]], lists[l := Without(lists[l], 0)])
  {
    DropApart(lists, l, 0);
    assert Addrs(p, lists[l])[0] == AddrOf(p, lists[l][0]);
    assert Addrs(p, Without(lists[l], 0)) == Addrs(p, lists[l])[1..];
  }

  /** What a head says about its list and about the free set. */
  lemma HeadMeans(p: Pool, mem: Memory, heads: seq<nat>, lists: seq<seq<Block>>, free: set<Block>, l: nat)
    requires Linked(p, mem, heads, lists) && Listed(lists, free) && l < |lists|
    ensures heads[l] == 0 <==> lists[l] == []
    ensures lists[l] == [] <==> forall f <- free :: f.level != l
    ensures forall f <- free :: f.level < |lists|
    ensures lists[l] != [] ==> lists[l][0] in free && lists[l][0].level == l
  {
    hide FirstUnit, Apart;
    assert lists[l] != [] ==> lists[l][0] in lists[l];
  }

  lemma PopParts(p: Pool, mem: Memory, heads: seq<nat>, lists: seq<seq<Block>>, free: set<Block>, l: nat)
    requires Linked(p, mem, heads, lists) && Listed(lists, free) && l < |lists| && lists[l] != []
    ensures heads[l] == AddrOf(p, lists[l][0]) && heads[l] in mem
    ensures Linked(p, mem, heads[l := mem[heads[l]]], lists[l := Without(lists[l], 0)])
    ensures Listed(lists[l := Without(lists[l], 0)], free - {lists[l][0]})
    ensures Unlisted(lists[l := Without(lists[l], 0)], lists[l][0])
  {
    hide FirstUnit, Chain, Listed, Unlisted, Apart, Leveled;
    PopLinked(p, mem, heads, lists, l);
    DropListed(lists, free, l, 0);
    DropApart(lists, l, 0);
  }

  lemma DropLinked(p: Pool, mem: Memory, heads: seq<nat>, lists: seq<seq<Block>>, l: nat, k: nat)
    requires Linked(p, mem, heads, lists) && l < |lists| && 0 < k < |lists[l]|
    ensures AddrOf(p, lists[l][k]) in mem
    ensures Linked(p, mem[AddrOf(p, lists[l][k - 1]) := mem[AddrOf(p, lists[l][k])]], heads,
                   lists[l := Without(lists[l], k)])
  {
    var addrs := Addrs(p, lists[l]);
    var prev := AddrOf(p, lists[l][k - 1]);
    DropApart(lists, l, k);
    AddrsNoRepeats(p, lists, l);
    ChainDrop(mem, heads[l], addrs, k);
    assert Addrs(p, Without(lists[l], k)) == addrs[..k] + addrs[k + 1..];
    forall m | 0 <= m < |lists| && m != l
      ensures Chain(mem[prev := mem[addrs[k]]], heads[m], Addrs(p, lists[m]))
    {
      forall n | 0 <= n < |lists[m]|
        ensures Addrs(p, lists[m])[n] != prev
      {
        AddrInjective(p, lists[m][n], lists[l][k - 1]);
      }
      ChainFrame(mem, heads[m], Addrs(p, lists[m]), prev, mem[addrs[k]]);
    }
  }
}
