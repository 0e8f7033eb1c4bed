/** The intrusive ring list of the client, with the publish nodes it links. */
module MqttList {
  import opened Bytes
  import opened MqttRetransmit

  /** A list node embedded in its publish record. The list head is such a node whose record is not used. */
  class PubNode {
    var prev: PubNode
    var next: PubNode
    var packetId: PacketId
    var packet: seq<Byte>
    var lastSendTime: nat

    /** CORE_INIT_LIST_HEAD: a node of its own. */
    constructor (id: PacketId, bytes: seq<Byte>, now: nat)
      ensures prev == this && next == this && packetId == id && packet == bytes && lastSendTime == now
    {
      prev, next, packetId, packet, lastSendTime := this, this, id, bytes, now;
    }

    function Record(): Entry
      reads this
    {
      Entry(packetId, packet, lastSendTime)
    }
  }

  ghost predicate AllDistinct(nodes: seq<PubNode>) {
    forall i, j :: 0 <= i < j < |nodes| ==> nodes[i] != nodes[j]
  }

  /** The links of every node; position |nodes| stands for the head. */
  ghost predicate Chained(head: PubNode, nodes: seq<PubNode>)
    reads nodes
  {
    && (forall k {:trigger nodes[k].next} :: 0 <= k < |nodes| ==> nodes[k].next == NextOf(head, nodes, k))
    && (forall k {:trigger nodes[k].prev} :: 0 <= k < |nodes| ==> nodes[k].prev == PrevOf(head, nodes, k))
  }

  /** The ring runs from the head through the nodes in order and back to the head, both ways. */
  ghost predicate Linked(head: PubNode, nodes: seq<PubNode>)
    reads head, nodes
  {
    && head !in nodes && AllDistinct(nodes) && Chained(head, nodes)
    && head.next == (if nodes == [] then head else nodes[0])
    && head.prev == (if nodes == [] then head else nodes[|nodes| - 1])
  }

  lemma DistinctAt(nodes: seq<PubNode>, i: nat, j: nat)
    requires AllDistinct(nodes) && i < |nodes| && j < |nodes| && i != j
    ensures nodes[i] != nodes[j] && nodes[i] in nodes
  {
  }

  lemma ChainAt(head: PubNode, nodes: seq<PubNode>, k: nat)
    requires Chained(head, nodes) && k < |nodes|
    ensures nodes[k].next == NextOf(head, nodes, k) && nodes[k].prev == PrevOf(head, nodes, k) && nodes[k] in nodes
  {
  }

  function NextOf(head: PubNode, nodes: seq<PubNode>, k: nat): PubNode
    requires k < |nodes|
  {
    if k + 1 < |nodes| then nodes[k + 1] else head
  }

  function PrevOf(head: PubNode, nodes: seq<PubNode>, k: nat): PubNode
    requires k < |nodes|
  {
    if k > 0 then nodes[k - 1] else head
  }

  /** Following the next pointers visits the nodes in order and ends at the head. */
  lemma FollowFirst(head: PubNode, nodes: seq<PubNode>)
    requires Linked(head, nodes)
    ensures head.next == if nodes == [] then head else nodes[0]
    ensures nodes != [] ==> nodes[0] != head
  {
    assert nodes != [] ==> nodes[0] in nodes;
  }

  lemma Follow(head: PubNode, nodes: seq<PubNode>, k: nat)
    requires Linked(head, nodes) && k < |nodes|
    ensures nodes[k].next == (if k + 1 < |nodes| then nodes[k + 1] else head)
    ensures nodes[k] != head && (k + 1 < |nodes| ==> nodes[k + 1] != head)
  {
    hide AllDistinct;
    ChainAt(head, nodes, k);
    assert k + 1 < |nodes| ==> nodes[k + 1] in nodes;
  }

  /** The records of the nodes, in order. */
  ghost function Records(nodes: seq<PubNode>): (r: seq<Entry>)
    reads nodes
    ensures |r| == |nodes| && forall k :: 0 <= k < |nodes| ==> r[k] == nodes[k].Record()
  {
    seq(|nodes|, k requires 0 <= k < |nodes| reads nodes => nodes[k].Record())
  }

  lemma RecordsWithout(nodes: seq<PubNode>, k: nat)
    requires k < |nodes|
    ensures Records(nodes[..k] + nodes[k + 1..]) == Records(nodes)[..k] + Records(nodes)[k + 1..]
  {
  }

  /** core_list_add_tail */
  method AddTail(node: PubNode, head: PubNode, ghost nodes: seq<PubNode>)
    requires Linked(head, nodes) && node != head && node !in nodes
    modifies head, nodes, node
    ensures Linked(head, nodes + [node])
    ensures forall n: PubNode | n == node || n in nodes :: n.Record() == old(n.Record())
  {
    hide AllDistinct, Chained;
    ghost var r, nexts, prevs := nodes + [node], Nexts(nodes), Prevs(nodes);
    LinkValues(head, nodes);
    if nodes != [] { ChainAt(head, nodes, |nodes| - 1); }
    var prev := head.prev;
    head.prev := node;
    node.next := head;
    node.prev := prev;
    prev.next := node;
    forall k | 0 <= k < |r| ensures r[k].next == NextOf(head, r, k) && r[k].prev == PrevOf(head, r, k) {
      if k < |nodes| {
        assert nodes[k] in nodes && nexts[k] == NextOf(head, nodes, k) && prevs[k] == PrevOf(head, nodes, k);
        if k < |nodes| - 1 { DistinctAt(nodes, k, |nodes| - 1); }
      }
    }
    Extended(nodes, node);
    ChainMade(head, r);
  }

  /** The links before an operation, as values. */
  ghost function Nexts(nodes: seq<PubNode>): (r: seq<PubNode>)
    reads nodes
    ensures |r| == |nodes| && forall k :: 0 <= k < |nodes| ==> r[k] == nodes[k].next
  {
    seq(|nodes|, k requires 0 <= k < |nodes| reads nodes => nodes[k].next)
  }

  ghost function Prevs(nodes: seq<PubNode>): (r: seq<PubNode>)
    reads nodes
    ensures |r| == |nodes| && forall k :: 0 <= k < |nodes| ==> r[k] == nodes[k].prev
  {
    seq(|nodes|, k requires 0 <= k < |nodes| reads nodes => nodes[k].prev)
  }

  lemma LinkValues(head: PubNode, nodes: seq<PubNode>)
    requires Chained(head, nodes)
    ensures forall k :: 0 <= k < |nodes| ==>
      Nexts(nodes)[k] == NextOf(head, nodes, k) && Prevs(nodes)[k] == PrevOf(head, nodes, k)
  {
  }

  lemma ChainMade(head: PubNode, r: seq<PubNode>)
    requires forall k {:trigger r[k].next} :: 0 <= k < |r| ==> r[k].next == NextOf(head, r, k)
    requires forall k {:trigger r[k].prev} :: 0 <= k < |r| ==> r[k].prev == PrevOf(head, r, k)
    ensures Chained(head, r)
  {
  }

  lemma Extended(nodes: seq<PubNode>, node: PubNode)
    requires AllDistinct(nodes) && node !in nodes
    ensures AllDistinct(nodes + [node])
  {
    var r := nodes + [node];
    forall i, j | 0 <= i < j < |r| ensures r[i] != r[j] {
      assert r[i] in nodes;
    }
  }

  lemma Shortened(nodes: seq<PubNode>, i: nat)
    requires AllDistinct(nodes) && i < |nodes|
    ensures AllDistinct(nodes[..i] + nodes[i + 1..])
    ensures forall n: PubNode :: n in nodes[..i] + nodes[i + 1..] ==> n in nodes && n != nodes[i]
  {
    var r := nodes[..i] + nodes[i + 1..];
    assert forall k :: 0 <= k < |r| ==> r[k] == nodes[if k < i then k else k + 1];
  }

  /** Who follows whom once node i has been taken out. */
  lemma WithoutOne(head: PubNode, nodes: seq<PubNode>, i: nat, k: nat)
    requires head !in nodes && AllDistinct(nodes) && i < |nodes| && k < |nodes| - 1
    ensures var r, j := nodes[..i] + nodes[i + 1..], if k < i then k else k + 1;
            && r[k] == nodes[j] != nodes[i] && nodes[j] in nodes
            && NextOf(head, r, k) ==
               (if nodes[j] == PrevOf(head, nodes, i) then NextOf(head, nodes, i) else NextOf(head, nodes, j))
            && PrevOf(head, r, k) ==
               (if nodes[j] == NextOf(head, nodes, i) then PrevOf(head, nodes, i) else PrevOf(head, nodes, j))
  {
    hide AllDistinct;
    var j := if k < i then k else k + 1;
    DistinctAt(nodes, j, i);
    if i > 0 && j != i - 1 { DistinctAt(nodes, j, i - 1); }
    if i + 1 < |nodes| && j != i + 1 { DistinctAt(nodes, j, i + 1); }
  }

  /** The four assignments of core_list_del. */
  method Unlink(entry: PubNode, ghost around: set<PubNode>)
    requires {entry, entry.prev, entry.next} <= around && entry.prev != entry && entry.next != entry
    modifies entry, entry.prev, entry.next
    ensures forall n: PubNode | n in around ::
              n.next == (if n == entry then entry else if n == old(entry.prev) then old(entry.next) else old(n.next))
    ensures forall n: PubNode | n in around ::
              n.prev == (if n == entry then entry else if n == old(entry.next) then old(entry.prev) else old(n.prev))
    ensures forall n: PubNode | n in around :: n.Record() == old(n.Record())
  {
    var prev, next := entry.prev, entry.next;
    next.prev := prev;
    prev.next := next;
    entry.next := entry;
    entry.prev := entry;
  }

  /** core_list_del */
  method Del(entry: PubNode, head: PubNode, ghost nodes: seq<PubNode>, ghost i: nat)
    requires Linked(head, nodes) && i < |nodes| && entry == nodes[i]
    modifies head, nodes
    ensures Linked(head, nodes[..i] + nodes[i + 1..])
    ensures forall n: PubNode | n in nodes :: n.Record() == old(n.Record())
  {
    hide AllDistinct, Chained, NextOf, PrevOf;
    ghost var r, nexts, prevs := nodes[..i] + nodes[i + 1..], Nexts(nodes), Prevs(nodes);
    LinkValues(head, nodes);
    ChainAt(head, nodes, i);
    Neighbours(head, nodes, i);
    ghost var around := {head} + set n | n in nodes;
    Unlink(entry, around);
    forall k | 0 <= k < |r| ensures r[k].next == NextOf(head, r, k) && r[k].prev == PrevOf(head, r, k) {
      WithoutOne(head, nodes, i, k);
      ghost var j := if k < i then k else k + 1;
      assert nexts[j] == NextOf(head, nodes, j) && prevs[j] == PrevOf(head, nodes, j);
    }
    Shortened(nodes, i);
    ChainMade(head, r);
  }

  /** The nodes beside node i are in the ring, and are the ends of the rest where it was an end. */
  lemma Neighbours(head: PubNode, nodes: seq<PubNode>, i: nat)
    requires head !in nodes && AllDistinct(nodes) && i < |nodes|
    ensures var p, n, r := PrevOf(head, nodes, i), NextOf(head, nodes, i), nodes[..i] + nodes[i + 1..];
            && (p == head || p in nodes) && (n == head || n in nodes) && p != nodes[i] && n != nodes[i]
            && (p == head <==> i == 0) && (n == head <==> i == |nodes| - 1)
            && (if r == [] then p == n == head
                else r[0] == (if i == 0 then n else nodes[0]) && r[|r| - 1] == if i == |nodes| - 1 then p else nodes[|nodes| - 1])
  {
    hide AllDistinct;
    if i > 0 { DistinctAt(nodes, i - 1, i); }
    if i + 1 < |nodes| { DistinctAt(nodes, i + 1, i); }
  }
}
