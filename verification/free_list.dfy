/**
 Singly linked lists threaded through free memory: the first word of a node holds the
 address of the next one, and address 0 ends the list. Both allocators use them.
 */
module FreeList {

  /** What the word at an address holds; only the link words of free nodes matter. */
  type Memory = map<nat, nat>

  /** Following the links from `head` visits exactly `nodes`. */
  ghost predicate Chain(mem: Memory, head: nat, nodes: seq<nat>)
    decreases nodes
  {
    if nodes == [] then
      head == 0
    else
      head == nodes[0] && head != 0 && head in mem && Chain(mem, mem[head], nodes[1..])
  }

  ghost predicate NoRepeats(nodes: seq<nat>) {
    forall i, j :: 0 <= i < j < |nodes| ==> nodes[i] != nodes[j]
  }

  lemma {:induction false} ChainAt(mem: Memory, head: nat, nodes: seq<nat>, k: nat)
    requires Chain(mem, head, nodes) && k <= |nodes|
    ensures k > 0 ==> nodes[k - 1] in mem && nodes[k - 1] != 0
    ensures Chain(mem, if k == 0 then head else mem[nodes[k - 1]], nodes[k..])
    decreases k
  {
    if k > 0 {
      ChainAt(mem, mem[head], nodes[1..], k - 1);
      assert nodes[1..][k - 1..] == nodes[k..];
      assert k > 1 ==> nodes[1..][k - 2] == nodes[k - 1];
    } else {
      assert nodes[0..] == nodes;
    }
  }

  /** Writing anywhere else does not disturb a list. */
  lemma {:induction false} ChainFrame(mem: Memory, head: nat, nodes: seq<nat>, at: nat, value: nat)
    requires Chain(mem, head, nodes) && at !in nodes
    ensures Chain(mem[at := value], head, nodes)
    decreases nodes
  {
    if nodes != [] {
      ChainFrame(mem, mem[head], nodes[1..], at, value);
    }
  }

  lemma ChainPush(mem: Memory, head: nat, nodes: seq<nat>, at: nat)
    requires Chain(mem, head, nodes) && at !in nodes && at != 0
    ensures Chain(mem[at := head], at, [at] + nodes)
  {
    ChainFrame(mem, head, nodes, at, head);
    assert ([at] + nodes)[1..] == nodes;
  }

  /** Redirecting the link before a node to the one after it drops just that node. */
  lemma {:induction false} ChainDrop(mem: Memory, head: nat, nodes: seq<nat>, k: nat)
    requires Chain(mem, head, nodes) && NoRepeats(nodes) && 0 < k < |nodes|
    ensures nodes[k] in mem
    ensures Chain(mem[nodes[k - 1] := mem[nodes[k]]], head, nodes[..k] + nodes[k + 1..])
    decreases k
  {
    ChainAt(mem, head, nodes, k);
    ChainAt(mem, head, nodes, k + 1);
    var after := nodes[..k] + nodes[k + 1..];
    var mem' := mem[nodes[k - 1] := mem[nodes[k]]];
    if k == 1 {
      assert after[1..] == nodes[2..];
      assert nodes[k] == mem[head];
      ChainFrame(mem, mem[nodes[1]], nodes[2..], nodes[0], mem[nodes[1]]);
    } else {
      ChainDrop(mem, mem[head], nodes[1..], k - 1);
      assert nodes[1..][k - 2] == nodes[k - 1] && nodes[1..][k - 1] == nodes[k];
      assert after[1..] == nodes[1..][..k - 1] + nodes[1..][k..];
      assert head != nodes[k - 1];
    }
  }
}
