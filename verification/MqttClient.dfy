/** The client's operations on its packet counter, its list of unacknowledged packets and its connection. */
module MqttClient {
  import opened Bytes
  import opened MqttPacket
  import opened MqttNetwork
  import opened MqttRetransmit
  import opened MqttDelivery
  import opened MqttList

  datatype Result = Done(id: nat) | Rejected(why: Verdict) | NotWritten(status: WriteStatus)

  /** What came of reading from the network; a message that was received, and acknowledged if it asks for it. */
  datatype Reception =
    | Nothing | Offline | ReadError | Malformed | Handled | Delivered(message: Message) | UnknownType

  /** `packetId`, `pubList` and the two settings are the client's; `online` says that there is a connection and `wire`
      collects what it has taken. */
  class Handle {
    var packetId: PacketId
    const pubList: PubNode
    const repubListLimit: PacketId
    const repubTimeout: nat
    var online: bool
    var wire: seq<Byte>
    /** The nodes in the ring, in order. */
    ghost var nodes: seq<PubNode>

    ghost predicate Valid()
      reads this, pubList, nodes
    {
      Linked(pubList, nodes)
    }

    /** The client as a value. */
    ghost function Value(): Client
      reads this, pubList, nodes
    {
      Client(packetId, Records(nodes), Network(online, wire))
    }

    constructor (limit: PacketId, timeout: nat)
      ensures Valid() && fresh(pubList) && nodes == []
      ensures Value() == FRESH && repubListLimit == limit && repubTimeout == timeout
    {
      packetId, repubListLimit, repubTimeout, online, wire, nodes := 0, limit, timeout, false, [], [];
      pubList := new PubNode(0, [], 0);
    }

    /** _core_mqtt_write, and closing the connection after a write that failed. */
    method Write(packet: seq<Byte>, outcome: Outcome) returns (status: WriteStatus)
      modifies this`online, this`wire
      ensures (Network(online, wire), status) == Send(old(Network(online, wire)), packet, outcome)
    {
      if !online { return Closed; }
      match outcome {
        case Whole =>
          wire := wire + packet;
          return Written;
        case Short(n) =>
          if n < |packet| {
            wire := wire + packet[..n];
            return LessData;
          }
          wire := wire + packet;
          return Written;
        case Broken =>
          online := false;
          return Failed;
      }
    }

    /** _core_mqtt_packet_id */
    method NewPacketId() returns (id: PacketId)
      modifies this`packetId
      ensures id == NextId(old(packetId)) == packetId
    {
      if (packetId + 1) % 0x1_0000 == 0 { packetId := 0; }
      packetId := packetId + 1;
      id := packetId;
    }

    /** _core_mqtt_publist_insert */
    method Insert(packet: seq<Byte>, id: PacketId, now: nat) returns (ret: Verdict)
      requires Valid()
      modifies this`nodes, pubList, nodes
      ensures Valid() && ret == Scan(old(Records(nodes)), id, repubListLimit, 0)
      ensures ret == Success ==> fresh(set n | n in nodes && n !in old(nodes))
      ensures Records(nodes) == if ret == Success then MqttRetransmit.Insert(old(Records(nodes)), Entry(id, packet, now))
                                else old(Records(nodes))
    {
      hide Scan, Linked;
      ret := ScanRing(id);
      if ret != Success { return; }
      var node := new PubNode(id, packet, now);
      AddTail(node, pubList, nodes);
      nodes := nodes + [node];
      assert Records(nodes) == MqttRetransmit.Insert(old(Records(nodes)), Entry(id, packet, now));
    }

    /** The loop over the list: an equal identifier, or too many packets, ends it. */
    method ScanRing(id: PacketId) returns (ret: Verdict)
      requires Valid()
      ensures ret == Scan(Records(nodes), id, repubListLimit, 0)
    {
      hide Linked, Scan;
      ScanEnd(Records(nodes), id, repubListLimit);
      FollowFirst(pubList, nodes);
      var node, packNum := pubList.next, 0;
      ghost var k := 0;
      while node != pubList
        invariant k <= |nodes| && node == (if k < |nodes| then nodes[k] else pubList) && packNum == k % 0x1_0000
        invariant Scan(Records(nodes), id, repubListLimit, 0) == Scan(Records(nodes), id, repubListLimit, k)
        invariant k < |nodes| ==> node != pubList
        decreases |nodes| - k
      {
        Follow(pubList, nodes, k);
        assert Records(nodes)[k] == nodes[k].Record();
        ScanNext(Records(nodes), id, repubListLimit, k);
        if node.packetId == id { return PacketIdRoll; }
        if packNum > repubListLimit { return ExceedsLimit; }
        packNum := (packNum + 1) % 0x1_0000;
        node := node.next;
        k := k + 1;
      }
      return Success;
    }

    /** _core_mqtt_publist_remove */
    method Remove(id: PacketId)
      requires Valid()
      modifies this`nodes, pubList, nodes
      ensures Valid() && Records(nodes) == MqttRetransmit.Remove(old(Records(nodes)), id)
      ensures forall n :: n in nodes ==> n in old(nodes)
    {
      hide Linked, MqttRetransmit.Remove;
      var node, next := FindById(id);
      ghost var l := Records(nodes);
      if node == pubList {
        RemoveAt(l, id, |l|);
        return;
      }
      ghost var k :| 0 <= k < |nodes| && nodes[k] == node && forall j :: 0 <= j < k ==> nodes[j].packetId != id;
      RemoveAt(l, id, k);
      Del(node, pubList, nodes, k);
      assert Records(nodes) == l;
      RecordsWithout(nodes, k);
      nodes := nodes[..k] + nodes[k + 1..];
    }

    /** The loop that looks for the identifier; the head stands for none. */
    method FindById(id: PacketId) returns (node: PubNode, next: PubNode)
      requires Valid()
      ensures node == pubList ==> forall j :: 0 <= j < |nodes| ==> nodes[j].packetId != id
      ensures node != pubList ==>
        exists k :: 0 <= k < |nodes| && nodes[k] == node && node.packetId == id
                    && forall j :: 0 <= j < k ==> nodes[j].packetId != id
    {
      hide Linked;
      FollowFirst(pubList, nodes);
      node := pubList.next;
      next := node.next;
      ghost var k := 0;
      while node != pubList
        invariant k <= |nodes| && node == (if k < |nodes| then nodes[k] else pubList) && next == node.next
        invariant forall j :: 0 <= j < k ==> nodes[j].packetId != id
        invariant k < |nodes| ==> node != pubList
        decreases |nodes| - k
      {
        Follow(pubList, nodes, k);
        if node.packetId == id { return; }
        node := next;
        next := next.next;
        k := k + 1;
      }
    }

    /** _core_mqtt_repub: every due packet is written again as it is stored; the first incomplete write ends the pass. */
    method Repub(looks: seq<Look>) returns (status: WriteStatus)
      requires Valid() && |looks| >= |Value().list|
      modifies this`online, this`wire, nodes
      ensures Valid() && Value() == Step(old(Value()), Event.Repub(looks), repubListLimit, repubTimeout)
      ensures status == Resend(old(Value()).list, repubTimeout, looks, old(Value()).net).2
    {
      hide Linked, Passed, Resend, Attempt, Touched;
      ghost var l0, n0 := Records(nodes), Value().net;
      FollowFirst(pubList, nodes);
      var node := pubList.next;
      var k := 0;
      PassStart(l0, looks, repubTimeout, n0);
      while node != pubList
        invariant k <= |nodes| == |l0| <= |looks| && node == (if k < |nodes| then nodes[k] else pubList)
        invariant Valid() && packetId == old(packetId) && nodes == old(nodes)
        invariant Passed(l0, Records(nodes), k, looks, repubTimeout, n0, Network(online, wire))
        invariant k < |nodes| ==> node != pubList
        decreases |nodes| - k
      {
        Follow(pubList, nodes, k);
        PassOne(l0, Records(nodes), k, looks, repubTimeout, n0, Network(online, wire));
        assert Records(nodes)[k] == node.Record();
        status := Retry(node, k, looks[k]);
        if status != Written { return status; }
        node := node.next;
        k := k + 1;
      }
      PassDone(l0, Records(nodes), k, looks, repubTimeout, n0, Network(online, wire));
      return Written;
    }

    /** One node of the pass. */
    method Retry(node: PubNode, ghost k: nat, look: Look) returns (status: WriteStatus)
      requires Valid() && k < |nodes| && node == nodes[k]
      modifies this`online, this`wire, node`lastSendTime
      ensures Valid() && node.next == old(node.next)
      ensures Records(nodes) == old(Records(nodes))[k := Touched(old(node.Record()), look.now, repubTimeout)]
      ensures (Network(online, wire), status) ==
              Attempt(old(Network(online, wire)), old(node.Record()), look, repubTimeout)
    {
      hide Linked, Send, Due, Touched;
      var due := LookAt(node, k, look.now);
      status := Written;
      if due { status := Write(node.packet, look.outcome); }
    }

    /** A clock that went back restarts the wait; a due node gets the time of the attempt. */
    method LookAt(node: PubNode, ghost k: nat, now: nat) returns (due: bool)
      requires Valid() && k < |nodes| && node == nodes[k]
      modifies node`lastSendTime
      ensures Valid() && due == Due(old(node.Record()), now, repubTimeout)
      ensures Records(nodes) == old(Records(nodes))[k := Touched(old(node.Record()), now, repubTimeout)]
      ensures node.next == old(node.next) && node.packet == old(node.packet)
    {
      ghost var l, e := Records(nodes), node.Record();
      if now < node.lastSendTime { SetTime(node, k, now); }
      due := now - node.lastSendTime >= repubTimeout;
      if due { SetTime(node, k, now); }
      assert l[k := e] == l;
    }

    /** _core_mqtt_pub: a QoS 1 packet gets a fresh identifier and is listed before it is written; if it cannot be
        listed it is not written. */
    method Publish(topic: array<Byte>, topicLen: nat, payload: array<Byte>, payloadLen: nat, qos: Qos, now: nat,
                   outcome: Outcome)
      returns (r: Result)
      requires Valid() && topicLen <= topic.Length && payloadLen <= payload.Length
      requires WithinLimits(topic[..topicLen], payload[..payloadLen])
      modifies this, pubList, nodes
      ensures Valid()
      ensures Value() == Step(old(Value()), Event.Publish(topic[..topicLen], payload[..payloadLen], qos, now, outcome),
                              repubListLimit, repubTimeout)
      ensures var id := if qos == 0 then 0 else NextId(old(packetId));
              var verdict := if qos == 0 then Success else Scan(old(Records(nodes)), id, repubListLimit, 0);
              var bytes := Packet(Message(topic[..topicLen], payload[..payloadLen], qos, id));
              var status := Send(old(Network(online, wire)), bytes, outcome).1;
              r == if verdict != Success then Rejected(verdict)
                   else if status == Written then Done(id) else NotWritten(status)
    {
      hide Linked, Packet, Fits, Scan, Send;
      var id: PacketId := 0;
      if qos == 1 { id := NewPacketId(); }
      ghost var m := Message(topic[..topicLen], payload[..payloadLen], qos, id);
      ClientLimitsFit(m);
      var pkt, pktLen := BuildPublish(topic, topicLen, payload, payloadLen, qos, id);
      if qos == 1 {
        var verdict := Insert(pkt[..pktLen], id, now);
        if verdict != Success { return Rejected(verdict); }
      }
      var status := Write(pkt[..pktLen], outcome);
      return if status == Written then Done(id) else NotWritten(status);
    }

    /** _core_mqtt_puback_handler */
    method OnPubAck(input: seq<Byte>) returns (ok: bool)
      requires Valid()
      modifies this`nodes, pubList, nodes
      ensures Valid() && ok == (|input| == 2) && packetId == old(packetId)
      ensures Records(nodes) == if ok then MqttRetransmit.Remove(old(Records(nodes)), TwoAt(input, 0))
                                else old(Records(nodes))
    {
      if |input| != 2 { return false; }
      Remove(TwoAt(input, 0));
      return true;
    }

    /** A PUBLISH packet: the message is delivered, and acknowledged whatever comes of writing the acknowledgement. */
    method OnPublish(body: seq<Byte>, qos: nat, outcome: Outcome) returns (ret: Status, m: Message)
      requires |body| < REMAINLEN_MAX
      modifies this`online, this`wire
      ensures ret == if Readable(body, qos) then Ok else InvalidPublishPacket
      ensures ret == Ok ==> m == Read(body, qos)
      ensures Network(online, wire) == if Readable(body, qos) && qos == 1
        then Send(old(Network(online, wire)), AckPacket(Read(body, 1).id), outcome).0 else old(Network(online, wire))
    {
      hide Readable, Read, Send;
      ret, m := HandlePublish(body, qos);
      if ret == Ok && qos == 1 {
        IdInRange(body);
        var status := Write(AckPacket(m.id), outcome);
      }
    }

    /** The switch over the packet type in aiot_mqtt_recv; an error closes the connection. */
    method Dispatch(header: Byte, body: seq<Byte>, outcome: Outcome) returns (r: Reception)
      requires Valid() && |body| < REMAINLEN_MAX
      modifies this`nodes, this`online, this`wire, pubList, nodes
      ensures Valid() && Value() == Incoming(old(Value()), header, body, outcome)
      ensures var kind, qos := header / 16 * 16, header / 2 % 4;
              && (r.Delivered? <==> kind == PUBLISH_TYPE && Readable(body, qos))
              && (r.Delivered? ==> r.message == Read(body, qos))
      ensures r == Handled || r.Delivered? <==> WellFormed(header, body)
      ensures r == UnknownType <==> header / 16 !in {3, 4, 5, 6, 7, 9, 11, 13}
    {
      hide Linked, Readable, Read, Send, MqttRetransmit.Remove;
      var kind := header / 16 * 16;
      if kind == PUBLISH_TYPE { WellFormedPublish(header, body); }
      if kind == PINGRESP_TYPE {
        r := if |body| != 0 then Malformed else Handled;
      } else if kind == PUBLISH_TYPE {
        var ret, m := OnPublish(body, header / 2 % 4, outcome);
        r := if ret == Ok then Delivered(m) else Malformed;
      } else if kind == PUBACK_TYPE {
        var ok := OnPubAck(body);
        r := if ok then Handled else Malformed;
      } else if kind in {SUBACK_TYPE, UNSUBACK_TYPE, PUBREC_TYPE, PUBREL_TYPE, PUBCOMP_TYPE} {
        r := Handled;
      } else {
        r := UnknownType;
      }
      if r == Malformed || r == UnknownType { online := false; }
    }

    /** aiot_mqtt_recv on what the network has from pos on: one packet is read and handled. A read that finds no byte
        is no error unless the connection is broken; any other read that fails closes it. */
    method Receive(net: seq<Byte>, pos: nat, broken: bool, outcome: Outcome) returns (r: Reception, next: nat)
      requires Valid() && pos <= |net|
      modifies this`nodes, this`online, this`wire, pubList, nodes
      ensures Valid()
      ensures !old(online) ==> r == Offline && Value() == old(Value())
      ensures old(online) && r.Delivered? ==> Received(net, pos, r.message, next)
      ensures old(online) && !r.Delivered? ==> forall m: Message, n: nat :: !Received(net, pos, m, n)
      ensures old(online) ==> forall body: seq<Byte>, n: nat | FrameAt(net, pos, body, n) ::
        next == n && Value() == Step(old(Value()), Arrive(net[pos], body, outcome), repubListLimit, repubTimeout)
      ensures old(online) && (forall k: nat, n: nat :: !FrameWith(net, pos, k, n)) ==>
        Value() == if pos == |net| && !broken then old(Value())
                   else Step(old(Value()), Lost, repubListLimit, repubTimeout)
    {
      hide Linked, FrameWith, Readable, Read, Incoming;
      next := pos;
      if !online { return Offline, pos; }
      var ret, body;
      ret, body, next := ReadFrame(net, pos);
      if ret == NoData && !broken { return Nothing, pos; }
      if ret != Ok {
        online := false;
        return ReadError, pos;
      }
      ghost var k := FrameDecides(net, pos, body, next);
      r := Dispatch(net[pos], body, outcome);
    }

    method SetTime(node: PubNode, ghost k: nat, now: nat)
      requires Valid() && k < |nodes| && node == nodes[k]
      modifies node`lastSendTime
      ensures Valid() && Records(nodes) == old(Records(nodes))[k := old(node.Record()).(last := now)]
    {
      node.lastSendTime := now;
    }
  }

  lemma IdInRange(body: seq<Byte>)
    requires Readable(body, 1)
    ensures Read(body, 1).id < 0x1_0000
  {
  }

  /** A packet that has been read is the only one at its position, and decides which message is received there. */
  lemma FrameDecides(net: seq<Byte>, pos: nat, body: seq<Byte>, next: nat) returns (k: nat)
    requires FrameAt(net, pos, body, next)
    ensures FrameWith(net, pos, k, next) && pos + 1 + k <= next <= |net| && body == net[pos + 1 + k..next]
    ensures forall b: seq<Byte>, n: nat :: FrameAt(net, pos, b, n) ==> b == body && n == next
    ensures var kind, qos := net[pos] / 16 * 16, net[pos] / 2 % 4;
            && (kind == PUBLISH_TYPE && Readable(body, qos) ==> Received(net, pos, Read(body, qos), next))
            && (!(kind == PUBLISH_TYPE && Readable(body, qos)) ==>
                forall m: Message, n: nat :: !Received(net, pos, m, n))
  {
    hide Complete, RemainValue, Readable, Read;
    k :| FrameWith(net, pos, k, next) && body == net[pos + 1 + k..next];
    forall b: seq<Byte>, n: nat | FrameAt(net, pos, b, n) ensures b == body && n == next {
      var l: nat :| FrameWith(net, pos, l, n) && b == net[pos + 1 + l..n];
      FrameOnce(net, pos, k, next, l, n);
    }
    OnlyThis(net, pos, k, next);
    var qos := net[pos] / 2 % 4;
    assert net[pos] / 16 * 16 == PUBLISH_TYPE <==> net[pos] / 16 == 3;
    if net[pos] / 16 == 3 && Readable(body, qos) {
      assert ReceivedWith(net, pos, k, Read(body, qos), next);
    }
  }

  /** The pass up to entry k: what it has done so far and what Resend says of the rest make up the whole. */
  ghost predicate Passed(l0: seq<Entry>, l: seq<Entry>, k: nat, looks: seq<Look>, timeout: nat, n0: Network, n: Network) {
    && k <= |l0| == |l| <= |looks| && l[k..] == l0[k..]
    && var (r, last, status) := Resend(l0, timeout, looks, n0);
    var (r', last', status') := Resend(l0[k..], timeout, looks[k..], n);
    r == l[..k] + r' && last == last' && status == status'
  }

  lemma PassStart(l: seq<Entry>, looks: seq<Look>, timeout: nat, n0: Network)
    requires |looks| >= |l|
    ensures Passed(l, l, 0, looks, timeout, n0, n0)
  {
    hide Resend;
    assert l[0..] == l && looks[0..] == looks;
    var (r, last, status) := Resend(l, timeout, looks, n0);
    assert l[..0] + r == r;
  }

  lemma PassDone(l0: seq<Entry>, l: seq<Entry>, k: nat, looks: seq<Look>, timeout: nat, n0: Network, n: Network)
    requires Passed(l0, l, k, looks, timeout, n0, n) && k == |l0|
    ensures Resend(l0, timeout, looks, n0) == (l, n, Written)
  {
    assert l0[k..] == [] && l[..k] == l;
    assert Resend([], timeout, looks[k..], n) == ([], n, Written);
    assert l[..k] + [] == l;
  }

  lemma PassOne(l0: seq<Entry>, l: seq<Entry>, k: nat, looks: seq<Look>, timeout: nat, n0: Network, n: Network)
    requires Passed(l0, l, k, looks, timeout, n0, n) && k < |l0|
    ensures k < |looks| && k < |l| && l[k] == l0[k]
    ensures var e := Touched(l0[k], looks[k].now, timeout);
            var (sent, status) := Attempt(n, l0[k], looks[k], timeout);
            if status != Written then Resend(l0, timeout, looks, n0) == (l[k := e], sent, status)
            else Passed(l0, l[k := e], k + 1, looks, timeout, n0, sent)
  {
    hide Resend, Touched, Attempt;
    var f, m := l0[k..], looks[k..];
    var e := Touched(l0[k], looks[k].now, timeout);
    assert f[0] == l0[k] == l[k..][0] && m[0] == looks[k];
    assert f[1..] == l0[k + 1..] && m[1..] == looks[k + 1..];
    ResendFirst(f, timeout, m, n);
    Patch(l, k, e, l0);
    var (sent, status) := Attempt(n, l0[k], looks[k], timeout);
    var (rest, last, final) := Resend(f[1..], timeout, m[1..], sent);
    MoveOver(l, k, e, rest);
  }

  lemma MoveOver(l: seq<Entry>, k: nat, e: Entry, rest: seq<Entry>)
    requires k < |l|
    ensures l[..k] + ([e] + rest) == l[k := e][..k + 1] + rest
  {
  }

  lemma Patch(l: seq<Entry>, k: nat, e: Entry, l0: seq<Entry>)
    requires k < |l| == |l0| && l[k..] == l0[k..]
    ensures l[k := e][..k + 1] == l[..k] + [e] && l[k := e][k + 1..] == l0[k + 1..]
    ensures l[k := e] == l[..k] + ([e] + l0[k..][1..])
  {
    assert l[k + 1..] == l[k..][1..] == l0[k..][1..] == l0[k + 1..];
  }
}
