/**
 The per-module alloc()/free() pool of mdl/host/host_api.c: fresh space comes off a bump
 pointer, freed blocks go on a list searched first fit, and every block carries its size in
 an 8-byte header in front of what the caller sees.
 */
module ModuleHeap {
  import opened Bytes
  import opened FreeList

  /** BLK_HDR_SIZE */
  const HEADER: nat := 8

  /** One block, header included, at this address. */
  datatype Chunk = Chunk(at: nat, size: nat, live: bool)

  /** (n + 7) & ~7 in 32 bits. */
  function Round8(n: nat): (r: nat)
    requires n < WORD_LIMIT
    ensures r % 8 == 0
  {
    (n + 7) % WORD_LIMIT / 8 * 8
  }

  /** Rounding covers the request, and leaves room for the header, up to where 32 bits wrap. */
  lemma RoundingIsUpIff(n: nat)
    requires n < WORD_LIMIT
    ensures n <= Round8(n) <==> n <= WORD_LIMIT - 8
    ensures Round8(n) + HEADER < WORD_LIMIT && n <= Round8(n) < n + 8 <==> n <= WORD_LIMIT - 16
  {
  }

  /** The chunks fill [start, end) without gap or overlap, all sizes multiples of 8. */
  ghost predicate Tiled(cs: seq<Chunk>, start: nat, end: nat) {
    if cs == [] then end == start
    else
      var last := cs[|cs| - 1];
      end == last.at + HEADER + last.size && last.size % 8 == 0 && last.size > 0 && Tiled(cs[..|cs| - 1], start, last.at)
  }

  lemma {:induction false} TiledInside(cs: seq<Chunk>, start: nat, end: nat, i: nat)
    requires Tiled(cs, start, end) && i < |cs| && start % 8 == 0
    ensures start <= cs[i].at && cs[i].at + HEADER + cs[i].size <= end
    ensures cs[i].at % 8 == 0 && cs[i].size % 8 == 0 && cs[i].size > 0
    decreases |cs|
  {
    TiledBounds(cs[..|cs| - 1], start, cs[|cs| - 1].at);
    if i < |cs| - 1 {
      TiledInside(cs[..|cs| - 1], start, cs[|cs| - 1].at, i);
    }
  }

  lemma {:induction false} TiledBounds(cs: seq<Chunk>, start: nat, end: nat)
    requires Tiled(cs, start, end) && start % 8 == 0
    ensures start <= end && end % 8 == 0
    decreases |cs|
  {
    if cs != [] {
      TiledBounds(cs[..|cs| - 1], start, cs[|cs| - 1].at);
    }
  }

  /** Payloads of different chunks do not meet, headers included. */
  lemma {:induction false} TiledApart(cs: seq<Chunk>, start: nat, end: nat, i: nat, j: nat)
    requires Tiled(cs, start, end) && start % 8 == 0 && i < j < |cs|
    ensures cs[i].at + HEADER + cs[i].size <= cs[j].at
    decreases |cs|
  {
    if j == |cs| - 1 {
      TiledInside(cs[..|cs| - 1], start, cs[j].at, i);
    } else {
      TiledApart(cs[..|cs| - 1], start, cs[|cs| - 1].at, i, j);
    }
  }

  lemma TiledGrown(cs: seq<Chunk>, start: nat, c: Chunk)
    requires Tiled(cs, start, c.at) && c.size % 8 == 0 && c.size > 0
    ensures Tiled(cs + [c], start, c.at + HEADER + c.size)
  {
    assert (cs + [c])[..|cs|] == cs;
  }

  function Marked(cs: seq<Chunk>, i: nat, live: bool): seq<Chunk>
    requires i < |cs|
  {
    cs[i := cs[i].(live := live)]
  }

  lemma {:induction false} TiledMarked(cs: seq<Chunk>, start: nat, end: nat, i: nat, live: bool)
    requires Tiled(cs, start, end) && i < |cs|
    ensures Tiled(Marked(cs, i, live), start, end)
    decreases |cs|
  {
    var us := Marked(cs, i, live);
    if i < |cs| - 1 {
      assert us[..|us| - 1] == Marked(cs[..|cs| - 1], i, live);
      TiledMarked(cs[..|cs| - 1], start, cs[|cs| - 1].at, i, live);
    } else {
      assert us[..|us| - 1] == cs[..|cs| - 1];
    }
  }

  /** The free list holds the free chunks, each once. */
  ghost predicate ListsFree(cs: seq<Chunk>, nodes: seq<nat>) {
    && NoRepeats(nodes)
    && (forall i :: 0 <= i < |cs| && !cs[i].live ==> cs[i].at in nodes)
    && (forall a <- nodes :: exists i :: 0 <= i < |cs| && !cs[i].live && cs[i].at == a)
  }

  /** Every header holds its chunk's size. */
  ghost predicate Headed(cs: seq<Chunk>, mem: Memory) {
    forall c <- cs :: c.at in mem && c.at + 4 in mem && mem[c.at + 4] == c.size
  }

  /** Chunk addresses differ. */
  lemma AtUnique(cs: seq<Chunk>, start: nat, end: nat, i: nat, j: nat)
    requires Tiled(cs, start, end) && start % 8 == 0 && i < |cs| && j < |cs| && cs[i].at == cs[j].at
    ensures i == j
  {
    if i < j {
      TiledApart(cs, start, end, i, j);
    } else if j < i {
      TiledApart(cs, start, end, j, i);
    }
  }

  /** Relinking writes no size. */
  lemma HeadedLink(cs: seq<Chunk>, mem: Memory, start: nat, end: nat, link: nat, v: nat)
    requires Headed(cs, mem) && Tiled(cs, start, end) && start % 8 == 0 && link % 8 == 0
    ensures Headed(cs, mem[link := v])
  {
    forall c <- cs
      ensures c.at + 4 != link
    {
      var i :| 0 <= i < |cs| && cs[i] == c;
      TiledInside(cs, start, end, i);
    }
  }

  lemma HeadedMarked(cs: seq<Chunk>, mem: Memory, i: nat, live: bool)
    requires Headed(cs, mem) && i < |cs|
    ensures Headed(Marked(cs, i, live), mem)
  {
    forall c <- Marked(cs, i, live)
      ensures c.at in mem && c.at + 4 in mem && mem[c.at + 4] == c.size
    {
      var j :| 0 <= j < |cs| && Marked(cs, i, live)[j] == c;
      assert cs[j] in cs;
    }
  }

  /** A header beyond the last chunk. */
  lemma HeadedGrown(cs: seq<Chunk>, mem: Memory, start: nat, end: nat, c: Chunk)
    requires Headed(cs, mem) && Tiled(cs, start, end) && start % 8 == 0 && c.at == end
    ensures Headed(cs + [c], mem[end := 0][end + 4 := c.size])
  {
    var mem' := mem[end := 0][end + 4 := c.size];
    forall d <- cs
      ensures d.at in mem' && d.at + 4 in mem' && mem'[d.at + 4] == d.size
    {
      var i :| 0 <= i < |cs| && cs[i] == d;
      TiledInside(cs, start, end, i);
    }
  }

  lemma NodesInside(cs: seq<Chunk>, nodes: seq<nat>, start: nat, end: nat)
    requires ListsFree(cs, nodes) && Tiled(cs, start, end) && start % 8 == 0
    ensures forall a <- nodes :: start <= a < end && a % 8 == 0
  {
    forall a <- nodes
      ensures start <= a < end && a % 8 == 0
    {
      var i :| 0 <= i < |cs| && !cs[i].live && cs[i].at == a;
      TiledInside(cs, start, end, i);
    }
  }

  function Without(nodes: seq<nat>, k: nat): seq<nat>
    requires k < |nodes|
  {
    nodes[..k] + nodes[k + 1..]
  }

  lemma FreeTaken(cs: seq<Chunk>, nodes: seq<nat>, start: nat, end: nat, i: nat, k: nat)
    requires ListsFree(cs, nodes) && Tiled(cs, start, end) && start % 8 == 0
    requires i < |cs| && k < |nodes| && nodes[k] == cs[i].at
    ensures ListsFree(Marked(cs, i, true), Without(nodes, k))
  {
    var us, rest := Marked(cs, i, true), Without(nodes, k);
    forall j | 0 <= j < |us| && !us[j].live
      ensures us[j].at in rest
    {
      var m :| 0 <= m < |nodes| && nodes[m] == cs[j].at;
      if m == k {
        AtUnique(cs, start, end, i, j);
      }
      assert m < k ==> rest[m] == nodes[m];
      assert m > k ==> rest[m - 1] == nodes[m];
    }
    forall a <- rest
      ensures exists j :: 0 <= j < |us| && !us[j].live && us[j].at == a
    {
      var m :| 0 <= m < |rest| && rest[m] == a;
      assert a == if m < k then nodes[m] else nodes[m + 1];
      assert a in nodes;
      var j :| 0 <= j < |cs| && !cs[j].live && cs[j].at == a;
      assert a != nodes[k];
      assert us[j] == cs[j];
    }
  }

  lemma FreeGiven(cs: seq<Chunk>, nodes: seq<nat>, start: nat, end: nat, i: nat)
    requires ListsFree(cs, nodes) && Tiled(cs, start, end) && start % 8 == 0 && i < |cs| && cs[i].live
    ensures cs[i].at !in nodes && ListsFree(Marked(cs, i, false), [cs[i].at] + nodes)
  {
    var us, more := Marked(cs, i, false), [cs[i].at] + nodes;
    if cs[i].at in nodes {
      var j :| 0 <= j < |cs| && !cs[j].live && cs[j].at == cs[i].at;
      AtUnique(cs, start, end, i, j);
    }
    forall a <- more
      ensures exists j :: 0 <= j < |us| && !us[j].live && us[j].at == a
    {
      if a == cs[i].at {
        assert us[i].at == a && !us[i].live;
      } else {
        var j :| 0 <= j < |cs| && !cs[j].live && cs[j].at == a;
        assert us[j] == cs[j];
      }
    }
  }

  lemma FreeGrown(cs: seq<Chunk>, nodes: seq<nat>, c: Chunk)
    requires ListsFree(cs, nodes) && c.live
    ensures ListsFree(cs + [c], nodes)
  {
    forall a <- nodes
      ensures exists j :: 0 <= j < |cs + [c]| && !(cs + [c])[j].live && (cs + [c])[j].at == a
    {
      var j :| 0 <= j < |cs| && !cs[j].live && cs[j].at == a;
      assert (cs + [c])[j] == cs[j];
    }
  }

  /** One more chunk, right behind the last, its header written. */
  lemma Grown(cs: seq<Chunk>, mem: Memory, head: nat, nodes: seq<nat>, start: nat, c: Chunk)
    requires Tiled(cs, start, c.at) && start % 8 == 0 && Headed(cs, mem) && ListsFree(cs, nodes) && Chain(mem, head, nodes)
    requires c.live && c.size % 8 == 0 && c.size > 0
    ensures Tiled(cs + [c], start, c.at + HEADER + c.size) && Headed(cs + [c], mem[c.at := 0][c.at + 4 := c.size])
    ensures ListsFree(cs + [c], nodes) && Chain(mem[c.at := 0][c.at + 4 := c.size], head, nodes)
  {
    hide Tiled, Headed, ListsFree, Chain;
    NodesInside(cs, nodes, start, c.at);
    TiledGrown(cs, start, c);
    HeadedGrown(cs, mem, start, c.at, c);
    FreeGrown(cs, nodes, c);
    ChainFrame(mem, head, nodes, c.at, 0);
    ChainFrame(mem[c.at := 0], head, nodes, c.at + 4, c.size);
  }

  // ---- the pool as a value -------------------------------------------------

  datatype Pool = Pool(chunks: seq<Chunk>, nodes: seq<nat>, next: nat)

  /** The first chunk at this address, or the number of chunks. */
  function IndexOf(cs: seq<Chunk>, a: nat): (i: nat)
    ensures i <= |cs| && (i < |cs| ==> cs[i].at == a) && forall j :: 0 <= j < i ==> cs[j].at != a
  {
    if cs == [] || cs[0].at == a then 0
    else
      var i := IndexOf(cs[1..], a);
      assert forall j :: 0 < j < i + 1 ==> cs[j] == cs[1..][j - 1];
      i + 1
  }

  predicate LargeAt(cs: seq<Chunk>, a: nat, size: nat) {
    var i := IndexOf(cs, a);
    i < |cs| && cs[i].size >= size
  }

  /** The first node on the list whose chunk is large enough, or the length of the list. */
  function FirstLarge(cs: seq<Chunk>, nodes: seq<nat>, size: nat): (k: nat)
    ensures k <= |nodes| && (k < |nodes| ==> LargeAt(cs, nodes[k], size)) && forall j :: 0 <= j < k ==> !LargeAt(cs, nodes[j], size)
  {
    if nodes == [] || LargeAt(cs, nodes[0], size) then 0
    else
      var k := FirstLarge(cs, nodes[1..], size);
      assert forall j :: 0 < j < k + 1 ==> nodes[j] == nodes[1..][j - 1];
      k + 1
  }

  /** alloc(n): first fit on the list, else fresh space below `end`, else null. */
  function Given(p: Pool, end: nat, n: nat): (Pool, nat)
    requires n < WORD_LIMIT
  {
    var size := Round8(n);
    var k := FirstLarge(p.chunks, p.nodes, size);
    if n == 0 then (p, 0)
    else if k < |p.nodes| then
      (Pool(Marked(p.chunks, IndexOf(p.chunks, p.nodes[k]), true), Without(p.nodes, k), p.next), p.nodes[k] + HEADER)
    else if p.next + size + HEADER <= end then
      (Pool(p.chunks + [Chunk(p.next, size, true)], p.nodes, p.next + size + HEADER), p.next + HEADER)
    else (p, 0)
  }

  lemma GivenNothing(p: Pool, end: nat)
    ensures Given(p, end, 0) == (p, 0)
  {
  }

  lemma GivenListed(p: Pool, end: nat, n: nat, k: nat, i: nat)
    requires 0 < n < WORD_LIMIT && FirstLarge(p.chunks, p.nodes, Round8(n)) == k < |p.nodes|
    requires IndexOf(p.chunks, p.nodes[k]) == i < |p.chunks|
    ensures Given(p, end, n) == (Pool(Marked(p.chunks, i, true), Without(p.nodes, k), p.next), p.nodes[k] + HEADER)
  {
    hide FirstLarge, IndexOf, Round8;
  }

  lemma GivenElse(p: Pool, end: nat, n: nat)
    requires 0 < n < WORD_LIMIT && FirstLarge(p.chunks, p.nodes, Round8(n)) == |p.nodes|
    ensures var size := Round8(n);
            Given(p, end, n) == if p.next + size + HEADER <= end then
              (Pool(p.chunks + [Chunk(p.next, size, true)], p.nodes, p.next + size + HEADER), p.next + HEADER)
            else (p, 0)
  {
    hide FirstLarge, IndexOf, Round8;
  }

  /** free() of a chunk of this pool. */
  function Returned(p: Pool, at: nat): Pool {
    var i := IndexOf(p.chunks, at);
    if i < |p.chunks| then Pool(Marked(p.chunks, i, false), [at] + p.nodes, p.next) else p
  }

  lemma IndexIs(cs: seq<Chunk>, start: nat, end: nat, i: nat)
    requires Tiled(cs, start, end) && start % 8 == 0 && i < |cs|
    ensures IndexOf(cs, cs[i].at) == i
  {
    AtUnique(cs, start, end, i, IndexOf(cs, cs[i].at));
  }

  class Heap {
    /** heap_stack_lo */
    const lo: nat
    /** MDL_HEAP_SIZE and MDL_ARGBLOCK_SIZE */
    const size: nat
    const argBlock: nat
    var poolNext: nat
    var poolEnd: nat
    var freeList: nat
    /** Header words: the link at a block's address, the size four bytes further. */
    var mem: Memory
    ghost var chunks: seq<Chunk>
    ghost var nodes: seq<nat>

    ghost predicate Valid()
      reads this
    {
      && lo > 0 && lo % 8 == 0 && lo + size < WORD_LIMIT && (lo + argBlock) % 8 == 0
      && poolEnd == lo + size && poolNext <= poolEnd
      && Tiled(chunks, lo + argBlock, poolNext)
      && Headed(chunks, mem)
      && ListsFree(chunks, nodes)
      && Chain(mem, freeList, nodes)
    }

    /** host_api_pool_reset() */
    constructor (lo: nat, size: nat, argBlock: nat)
      requires lo > 0 && lo % 8 == 0 && lo + size < WORD_LIMIT && argBlock % 8 == 0 && argBlock <= size
      ensures Valid() && chunks == [] && Holds(chunks, [], []) && this.lo == lo && this.size == size && this.argBlock == argBlock
    {
      this.lo, this.size, this.argBlock := lo, size, argBlock;
      poolNext, poolEnd, freeList := lo + argBlock, lo + size, 0;
      mem, chunks, nodes := map[], [], [];
    }

    ghost function Abs(): Pool
      reads this
    {
      Pool(chunks, nodes, poolNext)
    }

    /** `p` is what the caller of alloc() got for chunk `i`. */
    ghost predicate Payload(i: nat, p: nat)
      reads this
    {
      i < |chunks| && p == chunks[i].at + HEADER
    }

    /** The first chunk on the list that is large enough. */
    ghost predicate FirstFit(size: nat, i: nat)
      requires Valid()
      reads this
    {
      i < |chunks| && !chunks[i].live && chunks[i].size >= size
      && exists k :: 0 <= k < |nodes| && nodes[k] == chunks[i].at && forall j :: 0 <= j < k ==> TooSmall(nodes[j], size)
    }

    ghost predicate TooSmall(a: nat, size: nat)
      reads this
    {
      a + 4 in mem && mem[a + 4] < size
    }

    ghost predicate NoneFits(size: nat)
      reads this
    {
      forall c <- chunks :: !c.live ==> c.size < size
    }

    /** host_alloc_impl(), for a request whose rounding and header stay within 32 bits. */
    method Alloc(n: nat) returns (p: nat, ghost i: nat)
      requires Valid() && n <= WORD_LIMIT - 16
      modifies this`poolNext, this`freeList, this`mem, this`chunks, this`nodes
      ensures Valid()
      ensures p != 0 ==> n > 0 && Payload(i, p) && chunks[i].live && chunks[i].size >= n && p % 8 == 0
      ensures p != 0 && i < |old(chunks)| ==>
                old(FirstFit(Round8(n), i)) && chunks == Marked(old(chunks), i, true) && poolNext == old(poolNext)
      ensures p != 0 && i < |old(chunks)| ==>
                exists k :: 0 <= k < |old(nodes)| && old(nodes)[k] == old(chunks[i].at) && nodes == Without(old(nodes), k)
      ensures p != 0 && i >= |old(chunks)| ==> nodes == old(nodes)
      ensures p != 0 && i >= |old(chunks)| ==>
                old(NoneFits(Round8(n))) && chunks == old(chunks) + [Chunk(old(poolNext), Round8(n), true)]
      ensures p == 0 ==> unchanged(this) && (n == 0 || (NoneFits(Round8(n)) && poolEnd - poolNext < Round8(n) + HEADER))
      ensures (Abs(), p) == Given(old(Abs()), poolEnd, n)
    {
      hide Tiled, Headed, ListsFree, Chain, FirstLarge, IndexOf, Given, Round8;
      i := 0;
      if n == 0 {
        GivenNothing(Abs(), poolEnd);
        return 0, 0;
      }
      RoundingIsUpIff(n);
      var size := Round8(n);
      var cur, link;
      ghost var k;
      cur, link, k, i := Search(size);
      if cur != 0 {
        GivenListed(Abs(), poolEnd, n, k, i);
        TiledInside(chunks, lo + argBlock, poolNext, i);
        Unlink(link, cur, k, i);
        return cur + HEADER, i;
      }
      GivenElse(Abs(), poolEnd, n);
      if poolEnd - poolNext < size + HEADER {
        return 0, i;
      }
      i := |chunks|;
      p := Bump(size);
    }

    /** The walk along the free list, with the word that led to where it stopped. */
    method Search(size: nat) returns (cur: nat, link: nat, ghost k: nat, ghost i: nat)
      requires Valid()
      ensures cur == 0 ==> NoneFits(size) && FirstLarge(chunks, nodes, size) == |nodes|
      ensures cur != 0 ==> k < |nodes| && cur == nodes[k] && cur in mem && link == if k == 0 then 0 else nodes[k - 1]
      ensures cur != 0 ==> FirstFit(size, i) && chunks[i].at == cur
      ensures cur != 0 ==> FirstLarge(chunks, nodes, size) == k && IndexOf(chunks, cur) == i
    {
      hide Tiled, Headed, ListsFree, FirstLarge, IndexOf;
      link, cur, k, i := 0, freeList, 0, 0;
      while cur != 0
        invariant k <= |nodes| && Chain(mem, cur, nodes[k..])
        invariant link == if k == 0 then 0 else nodes[k - 1]
        invariant forall j :: 0 <= j < k ==> TooSmall(nodes[j], size)
        decreases |nodes| - k
      {
        assert cur == nodes[k];
        i := Owner(cur);
        if mem[cur + 4] >= size {
          FoundFirst(size, k, i);
          return;
        }
        assert nodes[k..][1..] == nodes[k + 1..];
        link, cur := cur, mem[cur];
        k := k + 1;
      }
      ListExhausted(size, k);
      FoundNone(size);
    }

    /** The free chunk a list node stands for. */
    lemma Owner(a: nat) returns (i: nat)
      requires Valid() && a in nodes
      ensures i < |chunks| && !chunks[i].live && chunks[i].at == a && a in mem && a + 4 in mem && mem[a + 4] == chunks[i].size
    {
      i :| 0 <= i < |chunks| && !chunks[i].live && chunks[i].at == a;
      assert chunks[i] in chunks;
    }

    /** Whether a node is large enough can be read off its header. */
    lemma NodeIsLarge(a: nat, size: nat)
      requires Valid() && a in nodes
      ensures LargeAt(chunks, a, size) <==> !TooSmall(a, size)
    {
      hide Tiled, ListsFree, Chain;
      var i := Owner(a);
      IndexIs(chunks, lo + argBlock, poolNext, i);
    }

    lemma FoundFirst(size: nat, k: nat, i: nat)
      requires Valid() && k < |nodes| && i < |chunks| && chunks[i].at == nodes[k] && !TooSmall(nodes[k], size)
      requires forall j :: 0 <= j < k ==> TooSmall(nodes[j], size)
      ensures FirstLarge(chunks, nodes, size) == k && IndexOf(chunks, nodes[k]) == i
    {
      hide Tiled, Headed, ListsFree, Chain, LargeAt, TooSmall;
      forall j | 0 <= j <= k
        ensures LargeAt(chunks, nodes[j], size) <==> !TooSmall(nodes[j], size)
      {
        NodeIsLarge(nodes[j], size);
      }
      IndexIs(chunks, lo + argBlock, poolNext, i);
    }

    lemma FoundNone(size: nat)
      requires Valid() && forall j :: 0 <= j < |nodes| ==> TooSmall(nodes[j], size)
      ensures FirstLarge(chunks, nodes, size) == |nodes|
    {
      hide Tiled, Headed, ListsFree, Chain, LargeAt, TooSmall;
      forall j | 0 <= j < |nodes|
        ensures !LargeAt(chunks, nodes[j], size)
      {
        NodeIsLarge(nodes[j], size);
      }
    }

    lemma ListExhausted(size: nat, k: nat)
      requires Valid() && k == |nodes| && forall j :: 0 <= j < k ==> TooSmall(nodes[j], size)
      ensures NoneFits(size)
    {
      forall c <- chunks | !c.live
        ensures c.size < size
      {
        var i :| 0 <= i < |chunks| && chunks[i] == c;
        var j :| 0 <= j < |nodes| && nodes[j] == c.at;
        assert TooSmall(nodes[j], size);
      }
    }

    /** Taking a node off the list: the pointer that led to it now leads past it. */
    method Unlink(link: nat, cur: nat, ghost k: nat, ghost i: nat)
      requires Valid() && k < |nodes| && cur == nodes[k] && cur in mem && link == (if k == 0 then 0 else nodes[k - 1])
      requires i < |chunks| && chunks[i].at == cur
      modifies this`freeList, this`mem, this`chunks, this`nodes
      ensures Valid() && chunks == Marked(old(chunks), i, true) && nodes == Without(old(nodes), k)
    {
      hide Tiled, Headed, ListsFree;
      ghost var start := lo + argBlock;
      NodesInside(chunks, nodes, start, poolNext);
      ChainAt(mem, freeList, nodes, k);
      FreeTaken(chunks, nodes, start, poolNext, i, k);
      TiledMarked(chunks, start, poolNext, i, true);
      if link == 0 {
        assert Without(nodes, k) == nodes[1..];
        freeList := mem[cur];
      } else {
        UniqueNodes();
        assert nodes[k - 1] in nodes;
        ChainDrop(mem, freeList, nodes, k);
        HeadedLink(chunks, mem, start, poolNext, link, mem[cur]);
        mem := mem[link := mem[cur]];
      }
      HeadedMarked(chunks, mem, i, true);
      chunks, nodes := Marked(chunks, i, true), Without(nodes, k);
    }

    lemma UniqueNodes()
      requires Valid()
      ensures NoRepeats(nodes)
    {
    }

    /** A fresh block off the bump pointer, its header written. */
    method Bump(size: nat) returns (p: nat)
      requires Valid() && size > 0 && size % 8 == 0 && size + HEADER <= poolEnd - poolNext
      modifies this`poolNext, this`mem, this`chunks
      ensures Valid() && chunks == old(chunks) + [Chunk(old(poolNext), size, true)] && p == old(poolNext) + HEADER && p % 8 == 0
      ensures poolNext == old(poolNext) + size + HEADER
    {
      hide Tiled, Headed, ListsFree, Chain;
      ghost var start, c := lo + argBlock, Chunk(poolNext, size, true);
      TiledBounds(chunks, start, poolNext);
      Grown(chunks, mem, freeList, nodes, start, c);
      p := poolNext + HEADER;
      mem := mem[poolNext := 0];
      mem := mem[poolNext + 4 := size];
      poolNext := poolNext + size + HEADER;
      chunks := chunks + [c];
    }

    /** The header of `p` would lie in this module's heap. */
    predicate InHeap(p: nat)
      requires p < WORD_LIMIT
    {
      var hdr := (p + WORD_LIMIT - HEADER) % WORD_LIMIT;
      lo <= hdr && hdr + HEADER <= lo + size
    }

    /** host_free_impl(): a pointer from elsewhere is refused; a chunk of ours goes to the front of the list. */
    method Free(p: nat, ghost i: nat)
      requires Valid() && p < WORD_LIMIT && (p != 0 && InHeap(p) ==> Payload(i, p) && chunks[i].live)
      modifies this`freeList, this`mem, this`chunks, this`nodes
      ensures Valid()
      ensures p == 0 || !InHeap(p) ==> unchanged(this)
      ensures p != 0 && InHeap(p) ==> chunks == Marked(old(chunks), i, false) && nodes == [old(chunks[i].at)] + old(nodes)
      ensures p != 0 && InHeap(p) ==> Abs() == Returned(old(Abs()), p - HEADER)
    {
      hide Tiled, Headed, ListsFree, Chain;
      if p == 0 {
        return;
      }
      if !InHeap(p) {
        return;
      }
      ghost var start := lo + argBlock;
      var at := p - HEADER;
      TiledInside(chunks, start, poolNext, i);
      FreeGiven(chunks, nodes, start, poolNext, i);
      IndexIs(chunks, start, poolNext, i);
      TiledMarked(chunks, start, poolNext, i, false);
      HeadedLink(chunks, mem, start, poolNext, at, freeList);
      HeadedMarked(chunks, mem[at := freeList], i, false);
      ChainPush(mem, freeList, nodes, at);
      mem := mem[at := freeList];
      freeList := at;
      chunks, nodes := Marked(chunks, i, false), [at] + nodes;
    }

    lemma HeldInHeap(held: seq<nat>, owner: seq<nat>, k: nat)
      requires Valid() && Holds(chunks, held, owner) && k < |held|
      ensures k < |owner| && Payload(owner[k], held[k]) && chunks[owner[k]].live && held[k] < WORD_LIMIT && InHeap(held[k])
    {
      TiledInside(chunks, lo + argBlock, poolNext, owner[k]);
    }

    /** Live payloads are aligned, lie in the heap above the argument block, and do not overlap. */
    lemma PayloadsApart(i: nat, j: nat)
      requires Valid() && i < j < |chunks|
      ensures lo + argBlock + HEADER <= chunks[i].at + HEADER && chunks[j].at + HEADER + chunks[j].size <= lo + size
      ensures (chunks[i].at + HEADER) % 8 == 0 && (chunks[j].at + HEADER) % 8 == 0
      ensures chunks[i].at + HEADER + chunks[i].size <= chunks[j].at
    {
      hide Headed, ListsFree, Chain;
      TiledInside(chunks, lo + argBlock, poolNext, i);
      TiledInside(chunks, lo + argBlock, poolNext, j);
      TiledApart(chunks, lo + argBlock, poolNext, i, j);
    }
  }

  /** What a client that frees only what it holds may do: `which` counts the pointers it holds. */
  datatype Request = Ask(n: nat) | GiveBack(which: nat)

  /** Chunks are never split, merged or moved. */
  ghost predicate Extends(cs: seq<Chunk>, ds: seq<Chunk>) {
    |cs| <= |ds| && forall i :: 0 <= i < |cs| ==> cs[i].at == ds[i].at && cs[i].size == ds[i].size
  }

  /** The pointers a client holds are those of the live chunks, each once. */
  ghost predicate Holds(cs: seq<Chunk>, held: seq<nat>, owner: seq<nat>) {
    && |held| == |owner| && NoRepeats(owner)
    && (forall k :: 0 <= k < |held| ==> owner[k] < |cs| && cs[owner[k]].live && held[k] == cs[owner[k]].at + HEADER)
    && (forall i :: 0 <= i < |cs| && cs[i].live ==> i in owner)
  }

  lemma HoldsMore(cs: seq<Chunk>, ds: seq<Chunk>, held: seq<nat>, owner: seq<nat>, i: nat, p: nat)
    requires Holds(cs, held, owner)
    requires if i < |cs| then !cs[i].live && ds == Marked(cs, i, true) else i == |cs| && |ds| == i + 1 && ds[..i] == cs && ds[i].live
    requires p == ds[i].at + HEADER
    ensures Holds(ds, held + [p], owner + [i])
  {
    forall j | 0 <= j < |ds| && ds[j].live
      ensures j in owner + [i]
    {
      if j != i {
        assert ds[j] == cs[j];
      }
    }
    assert forall k :: 0 <= k < |owner| ==> ds[owner[k]] == cs[owner[k]];
  }

  lemma HoldsLess(cs: seq<Chunk>, held: seq<nat>, owner: seq<nat>, k: nat)
    requires Holds(cs, held, owner) && k < |held|
    ensures Holds(Marked(cs, owner[k], false), Without(held, k), Without(owner, k))
  {
    var ds, rest, left := Marked(cs, owner[k], false), Without(owner, k), Without(held, k);
    OneFewer(owner, k);
    forall m | 0 <= m < |rest|
      ensures rest[m] < |ds| && ds[rest[m]].live && left[m] == ds[rest[m]].at + HEADER
    {
      var was := if m < k then m else m + 1;
      assert rest[m] == owner[was] != owner[k] && left[m] == held[was];
    }
    forall j | 0 <= j < |ds| && ds[j].live
      ensures j in rest
    {
      assert j in owner && j != owner[k];
    }
  }

  /** A list without repeats, one position dropped. */
  lemma OneFewer(owner: seq<nat>, k: nat)
    requires NoRepeats(owner) && k < |owner|
    ensures NoRepeats(Without(owner, k)) && owner[k] !in Without(owner, k)
    ensures forall j <- owner :: j != owner[k] ==> j in Without(owner, k)
  {
    var rest := Without(owner, k);
    assert forall m :: 0 <= m < |rest| ==> rest[m] == owner[if m < k then m else m + 1];
    forall j <- owner | j != owner[k]
      ensures j in rest
    {
      var m :| 0 <= m < |owner| && owner[m] == j;
      assert rest[if m < k then m else m - 1] == j;
    }
  }

  lemma ExtendsTwice(cs: seq<Chunk>, ds: seq<Chunk>, es: seq<Chunk>)
    requires Extends(cs, ds) && Extends(ds, es)
    ensures Extends(cs, es)
  {
  }

  /** The pool and the pointers the client holds. */
  datatype Session = Session(pool: Pool, held: seq<nat>)

  function Asked(s: Session, end: nat, r: Request): Session
    requires r.Ask? ==> r.n < WORD_LIMIT
  {
    match r
    case Ask(n) =>
      var (pool, p) := Given(s.pool, end, n);
      Session(pool, if p != 0 then s.held + [p] else s.held)
    case GiveBack(which) =>
      if which < |s.held| && s.held[which] >= HEADER then Session(Returned(s.pool, s.held[which] - HEADER), Without(s.held, which)) else s
  }

  function AskedAll(s: Session, end: nat, requests: seq<Request>): Session
    requires forall r <- requests :: r.Ask? ==> r.n < WORD_LIMIT
  {
    if requests == [] then s else Asked(AskedAll(s, end, requests[..|requests| - 1]), end, requests[|requests| - 1])
  }

  /** One request of the client. */
  method Serve(h: Heap, r: Request, held: seq<nat>, ghost owner: seq<nat>) returns (held': seq<nat>, ghost owner': seq<nat>)
    requires h.Valid() && Holds(h.chunks, held, owner) && (r.Ask? ==> r.n <= WORD_LIMIT - 16)
    modifies h`poolNext, h`freeList, h`mem, h`chunks, h`nodes
    ensures h.Valid() && Holds(h.chunks, held', owner') && Extends(old(h.chunks), h.chunks) && h.poolEnd == old(h.poolEnd)
    ensures Session(h.Abs(), held') == Asked(Session(old(h.Abs()), held), h.poolEnd, r)
  {
    hide Tiled, Headed, ListsFree, Chain, Holds, Heap.NoneFits, Given, Returned;
    held', owner' := held, owner;
    match r
    case Ask(n) =>
      var p, i := h.Alloc(n);
      if p != 0 {
        HoldsMore(old(h.chunks), h.chunks, held, owner, i, p);
        held', owner' := held + [p], owner + [i];
      }
    case GiveBack(which) =>
      if which < |held| {
        h.HeldInHeap(held, owner, which);
        h.Free(held[which], owner[which]);
        HoldsLess(old(h.chunks), held, owner, which);
        held', owner' := Without(held, which), Without(owner, which);
      }
  }

  /**
   Over any run, from any heap: the pointers handed out are those of a first-fit pool, the
   heap stays tiled, no block is ever split, merged, moved or resized, and the pointers the
   client holds are those of the live blocks.
   */
  method Client(h: Heap, requests: seq<Request>, start: seq<nat>, ghost owners: seq<nat>) returns (held: seq<nat>, ghost owner: seq<nat>)
    requires h.Valid() && Holds(h.chunks, start, owners) && forall r <- requests :: r.Ask? ==> r.n <= WORD_LIMIT - 16
    modifies h`poolNext, h`freeList, h`mem, h`chunks, h`nodes
    ensures h.Valid() && Holds(h.chunks, held, owner) && Extends(old(h.chunks), h.chunks) && h.poolEnd == old(h.poolEnd)
    ensures Session(h.Abs(), held) == AskedAll(Session(old(h.Abs()), start), h.poolEnd, requests)
  {
    hide Heap.Valid, Holds, Extends, Asked, Heap.Abs;
    held, owner := start, owners;
    ExtendsItself(h.chunks);
    for n := 0 to |requests|
      invariant h.Valid() && Holds(h.chunks, held, owner) && Extends(old(h.chunks), h.chunks) && h.poolEnd == old(h.poolEnd)
      invariant Session(h.Abs(), held) == AskedAll(Session(old(h.Abs()), start), h.poolEnd, requests[..n])
    {
      ghost var before := h.chunks;
      assert requests[..n + 1][..n] == requests[..n];
      held, owner := Serve(h, requests[n], held, owner);
      ExtendsTwice(old(h.chunks), before, h.chunks);
    }
    assert requests[..|requests|] == requests;
  }

  lemma ExtendsItself(cs: seq<Chunk>)
    ensures Extends(cs, cs)
  {
  }
}
