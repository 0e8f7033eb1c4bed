/** What the client lists, writes and acknowledges over a run, told from the events alone. */
module MqttDelivery {
  import opened Bytes
  import opened MqttPacket
  import opened MqttNetwork
  import opened MqttRetransmit

  /** A packet that waits for its acknowledgement, without its time. */
  datatype Pending = Pending(id: nat, packet: seq<Byte>)

  ghost predicate IsAttempt(e: Event) {
    e.Publish? && e.qos == 1
  }

  /** The publications with QoS 1, accepted or not. */
  ghost function Attempts(events: seq<Event>): nat {
    if events == [] then 0
    else Attempts(events[..|events| - 1]) + if IsAttempt(events[|events| - 1]) then 1 else 0
  }

  /** The identifiers of the attempts run from 1 to 65535 and start again. */
  ghost function Identifier(attempt: nat): PacketId {
    1 + attempt % 65535
  }

  /** A free identifier, and no more than limit + 1 packets so far unless the limit is 65535. */
  ghost predicate Accepted(waiting: seq<Pending>, id: nat, limit: PacketId) {
    (forall j :: 0 <= j < |waiting| ==> waiting[j].id != id) && (limit == 65535 || |waiting| <= limit + 1)
  }

  ghost function Without(waiting: seq<Pending>, id: nat): seq<Pending> {
    if waiting == [] then []
    else (if waiting[0].id == id then [] else [waiting[0]]) + Without(waiting[1..], id)
  }

  /** What one event leaves waiting, when n publications with QoS 1 came before it. */
  ghost function After(waiting: seq<Pending>, n: nat, e: Event, limit: PacketId): seq<Pending> {
    match e
    case Publish(topic, payload, qos, _, _) =>
      var id := Identifier(n);
      if qos == 1 && Accepted(waiting, id, limit)
      then waiting + [Pending(id, Packet(Message(topic, payload, 1, id)))] else waiting
    case Arrive(header, body, _) =>
      if header / 16 == 4 && |body| == 2 then Without(waiting, body[0] as int * 256 + body[1]) else waiting
    case _ => waiting
  }

  /** The accepted publications that have not been acknowledged since, in the order of acceptance. */
  ghost function Outstanding(events: seq<Event>, limit: PacketId): seq<Pending> {
    if events == [] then []
    else
      var past := events[..|events| - 1];
      After(Outstanding(past, limit), Attempts(past), events[|events| - 1], limit)
  }

  ghost function Waiting(l: seq<Entry>): (w: seq<Pending>)
    ensures |w| == |l|
  {
    seq(|l|, i requires 0 <= i < |l| => Pending(l[i].id, l[i].packet))
  }

  lemma {:induction false} RemovedIsWithout(l: seq<Entry>, id: nat)
    requires Distinct(l)
    ensures Waiting(Remove(l, id)) == Without(Waiting(l), id)
  {
    if l != [] {
      var w := Waiting(l);
      assert w[1..] == Waiting(l[1..]);
      if l[0].id == id {
        NoneWithout(w[1..], id);
        assert [] + w[1..] == w[1..];
      } else {
        RemovedIsWithout(l[1..], id);
        assert Waiting([l[0]] + Remove(l[1..], id)) == [w[0]] + Waiting(Remove(l[1..], id));
      }
    }
  }

  lemma {:induction false} NoneWithout(w: seq<Pending>, id: nat)
    requires forall j :: 0 <= j < |w| ==> w[j].id != id
    ensures Without(w, id) == w
  {
    if w != [] {
      NoneWithout(w[1..], id);
      assert w == [w[0]] + w[1..];
    }
  }

  /** In every state of every run the list is exactly what the events leave outstanding, and the next identifier is
      that of the next attempt. */
  lemma {:induction false} ListIsOutstanding(states: seq<Client>, events: seq<Event>, limit: PacketId, timeout: nat,
                                             k: nat)
    requires IsRun(states, events, limit, timeout) && k <= |events|
    ensures Waiting(states[k].list) == Outstanding(events[..k], limit)
    ensures NextId(states[k].last) == Identifier(Attempts(events[..k]))
  {
    if k > 0 {
      hide Step, After, Identifier;
      ListIsOutstanding(states, events, limit, timeout, k - 1);
      RunsKeep(states, events, limit, timeout, k - 1);
      assert events[..k][..k - 1] == events[..k - 1] && events[..k][k - 1] == events[k - 1];
      var c, e, n := states[k - 1], events[k - 1], Attempts(events[..k - 1]);
      StepLeaves(c, n, e, limit, timeout);
      StepCounts(c, n, e, limit, timeout);
    }
  }

  lemma StepLeaves(c: Client, n: nat, e: Event, limit: PacketId, timeout: nat)
    requires Inv(c.list, limit) && Possible(c, e) && NextId(c.last) == Identifier(n)
    ensures Waiting(Step(c, e, limit, timeout).list) == After(Waiting(c.list), n, e, limit)
  {
    hide Carries, Packet, Scan, Send, Resend, Without, Remove, Identifier;
    match e {
      case Publish(topic, payload, qos, now, outcome) =>
        ScanIsAccepted(c.list, NextId(c.last), limit);
      case Arrive(header, body, outcome) =>
        if header / 16 == 4 && |body| == 2 { RemovedIsWithout(c.list, TwoAt(body, 0)); }
      case Repub(looks) =>
      case Lost =>
      case Reconnected =>
    }
  }

  lemma StepCounts(c: Client, n: nat, e: Event, limit: PacketId, timeout: nat)
    requires Possible(c, e) && NextId(c.last) == Identifier(n)
    ensures NextId(Step(c, e, limit, timeout).last) == Identifier(if IsAttempt(e) then n + 1 else n)
  {
    hide Packet, Scan, Send, Resend, Remove, Identifier;
    NextIdentifier(n);
  }

  lemma ScanIsAccepted(l: seq<Entry>, id: PacketId, limit: PacketId)
    ensures Scan(l, id, limit, 0) == Success <==> Accepted(Waiting(l), id, limit)
  {
    ScanMeaning(l, id, limit, 0);
    assert forall j :: 0 <= j < |l| ==> Waiting(l)[j].id == l[j].id;
  }

  lemma NextIdentifier(n: nat)
    ensures NextId(Identifier(n)) == Identifier(n + 1)
  {
  }

  /** After a PUBACK no listed packet has its identifier, and all others are still listed in order. */
  lemma AcknowledgedLeaves(states: seq<Client>, events: seq<Event>, limit: PacketId, timeout: nat, i: nat, id: PacketId)
    requires IsRun(states, events, limit, timeout) && i < |events|
    requires IsAck(events[i], id)
    ensures forall e: Entry :: e in states[i + 1].list ==> e.id != id
    ensures Waiting(states[i + 1].list) == Without(Waiting(states[i].list), id)
  {
    hide Carries, Remove, Without;
    RunsKeep(states, events, limit, timeout, i);
    RemovedIsWithout(states[i].list, id);
    RemoveKeeps(states[i].list, id);
  }

  // ----- what a step does to the connection -----

  /** A publication that is accepted is listed with the time of the call and written behind what was written before;
      one that is not accepted leaves list and connection alone. */
  lemma PublishedIsWritten(states: seq<Client>, events: seq<Event>, limit: PacketId, timeout: nat, i: nat)
    requires IsRun(states, events, limit, timeout) && i < |events|
    requires events[i].Publish? && states[i].net.open && events[i].outcome == Whole
    ensures var e := events[i];
            var id := if e.qos == 1 then Identifier(Attempts(events[..i])) else 0;
            var packet := Packet(Message(e.topic, e.payload, e.qos, id));
            var accepted := e.qos == 0 || Accepted(Outstanding(events[..i], limit), id, limit);
            && states[i + 1].net == Network(true, states[i].net.wire + if accepted then packet else [])
            && states[i + 1].list ==
               states[i].list + if e.qos == 1 && accepted then [Entry(id, packet, e.now)] else []
  {
    hide Packet, Scan, Outstanding;
    ListIsOutstanding(states, events, limit, timeout, i);
    ScanIsAccepted(states[i].list, NextId(states[i].last), limit);
    assert states[i].net.wire + [] == states[i].net.wire && states[i].list + [] == states[i].list;
  }

  /** The retransmission step is a pass over the list. */
  lemma RepubWritesDue(c: Client, looks: seq<Look>, limit: PacketId, timeout: nat)
    returns (status: WriteStatus, from: seq<nat>, stop: nat)
    requires |looks| >= |c.list|
    ensures var next := Step(c, Repub(looks), limit, timeout);
            |next.list| == |c.list| && Pass(c.list, timeout, looks, c.net, next.list, next.net, status, from, stop)
  {
    hide Resend, Pass;
    from, stop := ResentAreDue(c.list, timeout, looks, c.net);
    status := Resend(c.list, timeout, looks, c.net).2;
  }

  /** On an open connection that takes what it is given, every packet whose timeout has passed is written, in the order
      of the list, and no other. */
  lemma WholePass(c: Client, looks: seq<Look>, limit: PacketId, timeout: nat) returns (from: seq<nat>)
    requires |looks| >= |c.list| && c.net.open && forall k :: 0 <= k < |c.list| ==> looks[k].outcome == Whole
    ensures (forall i :: 0 <= i < |from| ==> from[i] < |c.list|)
            && (forall i, j :: 0 <= i < j < |from| ==> from[i] < from[j])
    ensures forall k :: 0 <= k < |c.list| ==>
      (k in from <==> timeout == 0 || looks[k].now >= c.list[k].last + timeout)
    ensures Step(c, Repub(looks), limit, timeout).net ==
            Network(true, c.net.wire + Joined(PacketsAt(c.list, from)))
  {
    hide Resend, Joined, Timed, Step;
    var status, stop;
    status, from, stop := RepubWritesDue(c, looks, limit, timeout);
    assert stop == |c.list|;
    assert c.net.wire + Joined(PacketsAt(c.list, from)) + [] == c.net.wire + Joined(PacketsAt(c.list, from));
  }

  /** After a read that fails nothing more is written until the client connects again, and then to an empty stream. */
  lemma {:induction false} OfflineIsSilent(states: seq<Client>, events: seq<Event>, limit: PacketId, timeout: nat,
                                           i: nat, k: nat)
    requires IsRun(states, events, limit, timeout) && i < k <= |events| && events[i] == Lost
    requires forall j :: i < j < k - 1 ==> events[j] != Reconnected
    ensures if events[k - 1] == Reconnected then states[k].net == Network(true, [])
            else states[k].net == Network(false, states[i].net.wire)
  {
    if k > i + 1 {
      hide Packet, Readable, Resend, Scan;
      OfflineIsSilent(states, events, limit, timeout, i, k - 1);
      if events[k - 1].Repub? {
        ClosedPass(states[k - 1].list, timeout, events[k - 1].looks, states[k - 1].net);
      }
    }
  }

  lemma ClosedPass(l: seq<Entry>, timeout: nat, looks: seq<Look>, net: Network)
    requires |looks| >= |l| && !net.open
    ensures Resend(l, timeout, looks, net).1 == net
  {
    hide Resend, Timed, DuePositions;
    var from, stop := ResentAreDue(l, timeout, looks, net);
    assert PacketsAt(l, []) == [] && net.wire + Joined([]) + [] == net.wire;
  }

  /** The packet types the client takes, and the bodies it takes with them. */
  ghost predicate WellFormed(header: Byte, body: seq<Byte>) {
    match header / 16
    case 3 =>
      var qos := header / 2 % 4;
      qos <= 1 && |body| >= 2 && |body| >= 2 + (body[0] as int * 256 + body[1]) + if qos == 1 then 2 else 0
    case 4 => |body| == 2
    case 5 => true
    case 6 => true
    case 7 => true
    case 9 => true
    case 11 => true
    case 13 => body == []
    case _ => false
  }

  lemma WellFormedPublish(header: Byte, body: seq<Byte>)
    requires header / 16 == 3
    ensures WellFormed(header, body) <==> Readable(body, header / 2 % 4)
  {
  }

  /** A packet from the broker closes the connection exactly when it is not well formed, or when its acknowledgement
      cannot be written; a readable QoS 1 message is answered with a PUBACK that carries its identifier. */
  lemma ArrivedIsAnswered(c: Client, header: Byte, body: seq<Byte>, limit: PacketId, timeout: nat, o: Outcome)
    requires c.net.open && (o == Whole || o == Broken)
    ensures var next := Step(c, Arrive(header, body, o), limit, timeout);
            var asks := header / 16 == 3 && header / 2 % 4 == 1 && WellFormed(header, body);
            && next.net.open == (WellFormed(header, body) && !(asks && o == Broken))
            && next.net.wire == c.net.wire +
               if asks && o == Whole then
                 var at := 2 + (body[0] as int * 256 + body[1]);
                 [0x40, 2, body[at], body[at + 1]]
               else []
  {
    hide Remove;
    assert c.net.wire + [] == c.net.wire;
    if header / 16 == 3 && header / 2 % 4 == 1 && Readable(body, 1) {
      var at := 2 + TwoAt(body, 0);
      TwoForth(body, at);
      assert body[at..at + 2] == [body[at], body[at + 1]];
    }
  }

  /** The acknowledgement that one client writes is the acknowledgement that another one takes for this identifier. */
  lemma AckIsAck(id: PacketId, o: Outcome)
    ensures var p := AckPacket(id);
            && |p| == 4 && p[0] == 0x40 && p[1] == 2
            && IsAck(Arrive(p[0], p[2..], o), id) && FrameAt(p, 0, p[2..], 4)
            && forall other: PacketId :: other != id ==> !IsAck(Arrive(p[0], p[2..], o), other)
  {
    var p := AckPacket(id);
    LowByte(id % 256, id / 256);
    assert p[1..2] == [2] && [2 as Byte][1..] == [] && RemainValue([2]) == 2;
    assert FrameWith(p, 0, 1, 4);
  }
}
