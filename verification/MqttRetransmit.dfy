/** The QoS 1 retransmission list of the MQTT client as values, and what holds over all runs. */
module MqttRetransmit {
  import opened Bytes
  import opened MqttPacket
  import opened MqttNetwork

  datatype Verdict = Success | PacketIdRoll | ExceedsLimit

  /** A packet waiting for its PUBACK. */
  datatype Entry = Entry(id: nat, packet: seq<Byte>, last: nat)

  type PacketId = n: nat | n < 0x1_0000

  /** The counter skips zero when it wraps. */
  function NextId(last: PacketId): (id: PacketId)
    ensures id != 0
  {
    if (last + 1) % 0x1_0000 == 0 then 1 else last + 1
  }

  /** The scan in front of an insertion, from position k on; `limit` and the counter are 16 bits wide. */
  function Scan(l: seq<Entry>, id: PacketId, limit: PacketId, k: nat): Verdict
    requires k <= |l|
    decreases |l| - k
  {
    if k == |l| then Success
    else if l[k].id == id then PacketIdRoll
    else if k % 0x1_0000 > limit then ExceedsLimit
    else Scan(l, id, limit, k + 1)
  }

  lemma ScanEnd(l: seq<Entry>, id: PacketId, limit: PacketId)
    ensures Scan(l, id, limit, |l|) == Success
  {
  }

  lemma ScanNext(l: seq<Entry>, id: PacketId, limit: PacketId, k: nat)
    requires k < |l|
    ensures Scan(l, id, limit, k) ==
            if l[k].id == id then PacketIdRoll
            else if k % 0x1_0000 > limit then ExceedsLimit
            else Scan(l, id, limit, k + 1)
    ensures (k % 0x1_0000 + 1) % 0x1_0000 == (k + 1) % 0x1_0000
  {
  }

  function Insert(l: seq<Entry>, e: Entry): seq<Entry> {
    l + [e]
  }

  /** Without the first entry with this identifier. */
  function Remove(l: seq<Entry>, id: nat): (r: seq<Entry>)
    ensures |r| <= |l|
  {
    if l == [] then [] else if l[0].id == id then l[1..] else [l[0]] + Remove(l[1..], id)
  }

  lemma {:induction false} RemoveAt(l: seq<Entry>, id: nat, k: nat)
    requires k <= |l| && forall j :: 0 <= j < k ==> l[j].id != id
    ensures k < |l| && l[k].id == id ==> Remove(l, id) == l[..k] + l[k + 1..]
    ensures k == |l| ==> Remove(l, id) == l
  {
    if k > 0 {
      RemoveAt(l[1..], id, k - 1);
      assert l == [l[0]] + l[1..];
      assert k < |l| ==> l[1..][k - 1] == l[k] && l[1..][k..] == l[k + 1..];
    }
  }

  /** One reading of the clock and one outcome of a write, for an entry that is looked at. */
  datatype Look = Look(now: nat, outcome: Outcome)

  /** An entry is due when its timeout has passed; a clock that went back restarts the wait. */
  predicate Due(e: Entry, now: nat, timeout: nat) {
    (if now < e.last then 0 else now - e.last) >= timeout
  }

  function Touched(e: Entry, now: nat, timeout: nat): Entry {
    if now < e.last || Due(e, now, timeout) then e.(last := now) else e
  }

  /** Writing an entry again if it is due. */
  function Attempt(net: Network, e: Entry, look: Look, timeout: nat): (Network, WriteStatus) {
    if Due(e, look.now, timeout) then Send(net, e.packet, look.outcome) else (net, Written)
  }

  /** The retransmission pass: the list and the network afterwards, and the status of the last write. It stops at the
      first write that is not complete. */
  function Resend(l: seq<Entry>, timeout: nat, looks: seq<Look>, net: Network): (r: (seq<Entry>, Network, WriteStatus))
    requires |looks| >= |l|
    ensures |r.0| == |l|
    ensures forall k :: 0 <= k < |l| ==> r.0[k].id == l[k].id && r.0[k].packet == l[k].packet
    decreases |l|
  {
    if l == [] then ([], net, Written)
    else
      var e := Touched(l[0], looks[0].now, timeout);
      var (sent, status) := Attempt(net, l[0], looks[0], timeout);
      if status != Written then ([e] + l[1..], sent, status)
      else
        var (rest, last, final) := Resend(l[1..], timeout, looks[1..], sent);
        ([e] + rest, last, final)
  }

  lemma ResendFirst(l: seq<Entry>, timeout: nat, looks: seq<Look>, net: Network)
    requires l != [] && |looks| >= |l|
    ensures var e := Touched(l[0], looks[0].now, timeout);
            var (sent, status) := Attempt(net, l[0], looks[0], timeout);
            var (rest, last, final) := Resend(l[1..], timeout, looks[1..], sent);
            Resend(l, timeout, looks, net) ==
            if status != Written then ([e] + l[1..], sent, status) else ([e] + rest, last, final)
  {
  }

  // ----- runs -----

  datatype Client = Client(last: PacketId, list: seq<Entry>, net: Network)

  /** The steps of the client. Arrive is a packet that has been read, Lost a read that fails, Reconnected a new
      connection. */
  datatype Event =
    | Publish(topic: seq<Byte>, payload: seq<Byte>, qos: Qos, now: nat, outcome: Outcome)
    | Arrive(header: Byte, body: seq<Byte>, outcome: Outcome)
    | Repub(looks: seq<Look>)
    | Lost
    | Reconnected

  function Qos1Packet(topic: seq<Byte>, payload: seq<Byte>, id: PacketId): seq<Byte> {
    Packet(Message(topic, payload, 1, id))
  }

  predicate WithinLimits(topic: seq<Byte>, payload: seq<Byte>) {
    0 < |topic| < TOPIC_MAXLEN && |payload| < PAYLOAD_MAXLEN
  }

  /** The client's own limits on topic and payload, and one clock reading for every listed packet. */
  predicate Possible(c: Client, e: Event) {
    match e
    case Publish(topic, payload, _, _, _) => WithinLimits(topic, payload)
    case Repub(looks) => |looks| >= |c.list|
    case _ => true
  }

  const PUBACK_TYPE := 0x40
  const PUBREC_TYPE := 0x50
  const PUBREL_TYPE := 0x60
  const PUBCOMP_TYPE := 0x70
  const SUBACK_TYPE := 0x90
  const UNSUBACK_TYPE := 0xB0
  const PINGRESP_TYPE := 0xD0

  function Shut(c: Client): Client {
    c.(net := c.net.(open := false))
  }

  /** A packet from the broker: a readable QoS 1 message is acknowledged, an acknowledgement removes its packet, and
      what is malformed or of another type closes the connection. */
  function Incoming(c: Client, header: Byte, body: seq<Byte>, o: Outcome): Client {
    var kind, qos := header / 16 * 16, header / 2 % 4;
    if kind == PUBLISH_TYPE then
      if !Readable(body, qos) then Shut(c)
      else if qos == 1 then c.(net := Send(c.net, AckPacket(Read(body, 1).id), o).0)
      else c
    else if kind == PUBACK_TYPE then
      if |body| == 2 then c.(list := Remove(c.list, TwoAt(body, 0))) else Shut(c)
    else if kind == PINGRESP_TYPE then
      if body == [] then c else Shut(c)
    else if kind in {SUBACK_TYPE, UNSUBACK_TYPE, PUBREC_TYPE, PUBREL_TYPE, PUBCOMP_TYPE} then c
    else Shut(c)
  }

  function Step(c: Client, e: Event, limit: PacketId, timeout: nat): Client
    requires Possible(c, e)
  {
    match e
    case Publish(topic, payload, qos, now, outcome) =>
      if qos == 0 then c.(net := Send(c.net, Packet(Message(topic, payload, 0, 0)), outcome).0)
      else
        var id := NextId(c.last);
        var packet := Qos1Packet(topic, payload, id);
        if Scan(c.list, id, limit, 0) == Success then
          Client(id, Insert(c.list, Entry(id, packet, now)), Send(c.net, packet, outcome).0)
        else c.(last := id)
    case Arrive(header, body, outcome) => Incoming(c, header, body, outcome)
    case Repub(looks) =>
      var (list, net, _) := Resend(c.list, timeout, looks, c.net);
      c.(list := list, net := net)
    case Lost => Shut(c)
    case Reconnected => c.(net := Network(true, []))
  }

  const FRESH := Client(0, [], Network(false, []))

  /** The states of a run, one more than it has events. */
  ghost predicate IsRun(states: seq<Client>, events: seq<Event>, limit: PacketId, timeout: nat) {
    && |states| == |events| + 1 && states[0] == FRESH
    && forall i :: 0 <= i < |events| ==>
         Possible(states[i], events[i]) && states[i + 1] == Step(states[i], events[i], limit, timeout)
  }

  /** The packet was built for this identifier. */
  ghost predicate Carries(e: Entry) {
    exists topic: seq<Byte>, payload: seq<Byte> ::
      e.id < 0x1_0000 && WithinLimits(topic, payload) && e.packet == Qos1Packet(topic, payload, e.id)
  }

  ghost predicate Distinct(l: seq<Entry>) {
    forall i, j :: 0 <= i < j < |l| ==> l[i].id != l[j].id
  }

  /** Identifiers are not zero and pairwise distinct, every packet carries its identifier, and there are at most
      limit + 2 of them. */
  ghost predicate Inv(l: seq<Entry>, limit: PacketId) {
    && (forall k :: 0 <= k < |l| ==> 0 < l[k].id < 0x1_0000 && Carries(l[k]))
    && Distinct(l) && |l| <= limit + 2
  }

  /** An insertion is allowed exactly when the identifier is not listed and the list is no longer than limit + 1;
      a limit of 65535 is never exceeded. */
  lemma {:induction false} ScanMeaning(l: seq<Entry>, id: PacketId, limit: PacketId, k: nat)
    requires k <= |l| && (limit < 0xFFFF ==> k <= limit + 1)
    ensures Scan(l, id, limit, k) == Success <==>
            (forall j :: k <= j < |l| ==> l[j].id != id) && (limit == 0xFFFF || |l| <= limit + 1)
    decreases |l| - k
  {
    if k < |l| && l[k].id != id && k % 0x1_0000 <= limit {
      ScanMeaning(l, id, limit, k + 1);
    }
  }

  function Ids(l: seq<Entry>): set<nat> {
    set k | 0 <= k < |l| :: l[k].id
  }

  lemma {:induction false} IdCount(l: seq<Entry>)
    requires Distinct(l)
    ensures |Ids(l)| == |l|
  {
    if l != [] {
      var n := |l| - 1;
      IdCount(l[..n]);
      assert Ids(l) == Ids(l[..n]) + {l[n].id};
    }
  }

  function Below(n: nat): set<nat> {
    if n == 0 then {} else Below(n - 1) + {n - 1}
  }

  lemma {:induction false} BelowCount(n: nat)
    ensures |Below(n)| == n && forall x: nat :: x in Below(n) <==> x < n
  {
    if n > 0 { BelowCount(n - 1); }
  }

  lemma SubsetCount<T>(a: set<T>, b: set<T>)
    requires a <= b
    ensures |a| <= |b|
  {
    assert b == a + (b - a);
  }

  /** Sixteen-bit identifiers bound the list even where the limit does not. */
  lemma DistinctIdsBound(l: seq<Entry>)
    requires Distinct(l) && forall k :: 0 <= k < |l| ==> l[k].id < 0x1_0000
    ensures |l| <= 0x1_0000
  {
    IdCount(l);
    BelowCount(0x1_0000);
    SubsetCount(Ids(l), Below(0x1_0000));
  }

  lemma RemoveKeeps(l: seq<Entry>, id: nat)
    requires Distinct(l)
    ensures Distinct(Remove(l, id))
    ensures forall e: Entry :: e in Remove(l, id) <==> e in l && e.id != id
  {
    hide Remove;
    if k: nat :| k < |l| && l[k].id == id {
      RemoveAt(l, id, k);
      WithoutOne(l, k);
    } else {
      RemoveAt(l, id, |l|);
    }
  }

  lemma WithoutOne(l: seq<Entry>, k: nat)
    requires Distinct(l) && k < |l|
    ensures Distinct(l[..k] + l[k + 1..])
    ensures forall e: Entry :: e in l[..k] + l[k + 1..] <==> e in l && e.id != l[k].id
  {
    var r := l[..k] + l[k + 1..];
    forall e: Entry ensures e in r <==> e in l && e.id != l[k].id {
      if e in r {
        var i :| 0 <= i < |r| && r[i] == e;
        assert e == l[if i < k then i else i + 1];
      }
      if e in l && e.id != l[k].id {
        var i :| 0 <= i < |l| && l[i] == e;
        assert e == r[if i < k then i else i - 1];
      }
    }
  }

  /** Every step keeps the invariant. */
  lemma StepKeeps(c: Client, e: Event, limit: PacketId, timeout: nat)
    requires Inv(c.list, limit) && Possible(c, e)
    ensures Inv(Step(c, e, limit, timeout).list, limit)
  {
    hide Carries, Qos1Packet;
    match e {
      case Publish(topic, payload, qos, now, outcome) =>
        var id := NextId(c.last);
        ScanMeaning(c.list, id, limit, 0);
        PublishedCarries(topic, payload, id, now);
        if limit == 0xFFFF { DistinctIdsBound(c.list); }
      case Arrive(header, body, outcome) =>
        if header / 16 * 16 == PUBACK_TYPE && |body| == 2 { RemovalKeeps(c.list, TwoAt(body, 0), limit); }
      case Repub(looks) =>
        ResendCarries(c.list, timeout, looks, c.net);
      case Lost =>
      case Reconnected =>
    }
  }

  lemma RemovalKeeps(l: seq<Entry>, id: nat, limit: PacketId)
    requires Inv(l, limit)
    ensures Inv(Remove(l, id), limit)
  {
    hide Carries;
    RemoveKeeps(l, id);
    forall k | 0 <= k < |Remove(l, id)| ensures 0 < Remove(l, id)[k].id < 0x1_0000 && Carries(Remove(l, id)[k]) {
      assert Remove(l, id)[k] in l;
    }
  }

  lemma PublishedCarries(topic: seq<Byte>, payload: seq<Byte>, id: PacketId, now: nat)
    requires WithinLimits(topic, payload)
    ensures Carries(Entry(id, Qos1Packet(topic, payload, id), now))
  {
  }

  lemma ResendCarries(l: seq<Entry>, timeout: nat, looks: seq<Look>, net: Network)
    requires |looks| >= |l| && forall k :: 0 <= k < |l| ==> Carries(l[k])
    ensures forall k :: 0 <= k < |l| ==> Carries(Resend(l, timeout, looks, net).0[k])
  {
    forall k | 0 <= k < |l| ensures Carries(Resend(l, timeout, looks, net).0[k]) {
      assert Carries(l[k]);
    }
  }

  /** Over every run: identifiers not zero and distinct, at most limit + 2 packets, each carrying its identifier. */
  lemma {:induction false} RunsKeep(states: seq<Client>, events: seq<Event>, limit: PacketId, timeout: nat, i: nat)
    requires IsRun(states, events, limit, timeout) && i <= |events|
    ensures Inv(states[i].list, limit)
  {
    hide Inv, Step;
    if i > 0 {
      RunsKeep(states, events, limit, timeout, i - 1);
      StepKeeps(states[i - 1], events[i - 1], limit, timeout);
    } else {
      EmptyInv(limit);
    }
  }

  lemma EmptyInv(limit: PacketId)
    ensures Inv([], limit)
  {
  }

  /** Event i is a publication that was accepted with this identifier and packet. */
  ghost predicate AcceptedAt(states: seq<Client>, events: seq<Event>, limit: PacketId, i: nat, id: PacketId,
                             packet: seq<Byte>)
  {
    && i < |events| && i < |states| && events[i].Publish? && events[i].qos == 1 && id == NextId(states[i].last)
    && packet == Qos1Packet(events[i].topic, events[i].payload, id)
    && Scan(states[i].list, id, limit, 0) == Success
  }

  ghost predicate Listed(l: seq<Entry>, id: PacketId, packet: seq<Byte>) {
    exists k :: 0 <= k < |l| && l[k].id == id && l[k].packet == packet
  }

  /** A PUBACK with this identifier has come in. */
  predicate IsAck(e: Event, id: PacketId) {
    e.Arrive? && e.header / 16 == 4 && |e.body| == 2 && e.body[0] as int * 256 + e.body[1] == id
  }

  ghost predicate Acknowledged(events: seq<Event>, i: nat, k: nat, id: PacketId) {
    exists j :: i < j < k && j < |events| && IsAck(events[j], id)
  }

  /** An accepted packet is still listed byte for byte, or a PUBACK with its identifier has come in since. */
  lemma {:induction false} AcceptedPacketsStay(states: seq<Client>, events: seq<Event>, limit: PacketId, timeout: nat,
                                               i: nat, k: nat, id: PacketId, packet: seq<Byte>)
    requires IsRun(states, events, limit, timeout) && i < k <= |events|
    requires AcceptedAt(states, events, limit, i, id, packet)
    ensures Listed(states[k].list, id, packet) || Acknowledged(events, i, k, id)
  {
    if k == i + 1 {
      hide Qos1Packet, Scan;
      var l := states[k].list;
      assert l[|l| - 1].id == id && l[|l| - 1].packet == packet;
    } else {
      AcceptedPacketsStay(states, events, limit, timeout, i, k - 1, id, packet);
      RunsKeep(states, events, limit, timeout, k - 1);
      if Acknowledged(events, i, k - 1, id) {
        var j :| i < j < k - 1 && j < |events| && IsAck(events[j], id);
        assert IsAck(events[j], id) && j < k;
      } else if IsAck(events[k - 1], id) {
        assert Acknowledged(events, i, k, id);
      } else {
        StepKeepsOthers(states[k - 1], events[k - 1], limit, timeout, id, packet);
      }
    }
  }

  lemma StepKeepsOthers(c: Client, e: Event, limit: PacketId, timeout: nat, id: PacketId, packet: seq<Byte>)
    requires Inv(c.list, limit) && Possible(c, e) && Listed(c.list, id, packet) && !IsAck(e, id)
    ensures Listed(Step(c, e, limit, timeout).list, id, packet)
  {
    hide Qos1Packet, Carries, Scan, Packet, Send;
    var k :| 0 <= k < |c.list| && c.list[k].id == id && c.list[k].packet == packet;
    var l := Step(c, e, limit, timeout).list;
    if e.Arrive? && e.header / 16 * 16 == PUBACK_TYPE && |e.body| == 2 {
      RemoveKeeps(c.list, TwoAt(e.body, 0));
      assert c.list[k] in l;
      var j :| 0 <= j < |l| && l[j] == c.list[k];
    } else {
      assert l[k].id == id && l[k].packet == packet;
    }
  }

  function PacketsAt(l: seq<Entry>, from: seq<nat>): (r: seq<seq<Byte>>)
    requires forall i :: 0 <= i < |from| ==> from[i] < |l|
    ensures |r| == |from|
  {
    seq(|from|, i requires 0 <= i < |from| => l[from[i]].packet)
  }

  /** Position k is ahead of `stop` and listed in `from` exactly when its timeout has passed; the positions ascend. */
  ghost predicate DuePositions(l: seq<Entry>, timeout: nat, looks: seq<Look>, from: seq<nat>, stop: nat)
    requires |looks| >= |l|
  {
    && stop <= |l|
    && (forall i :: 0 <= i < |from| ==> from[i] < stop)
    && (forall i, j :: 0 <= i < j < |from| ==> from[i] < from[j])
    && forall k :: 0 <= k < stop ==> (k in from <==> timeout == 0 || looks[k].now >= l[k].last + timeout)
  }

  /** Until the pass stops an entry gets the time of its look if it is due or its own time lies ahead, at the stop it
      gets the time of the attempt, and behind it nothing changes. */
  ghost predicate Timed(l: seq<Entry>, list: seq<Entry>, timeout: nat, looks: seq<Look>, stop: nat)
    requires |looks| >= |l| == |list|
  {
    forall k :: 0 <= k < |l| ==>
      list[k].last ==
      if k < stop && (timeout == 0 || looks[k].now >= l[k].last + timeout || looks[k].now < l[k].last) then looks[k].now
      else if k == stop then looks[k].now
      else l[k].last
  }

  /** The pass stops at an entry that is due and whose packet the network does not take as a whole. */
  ghost predicate StopsAt(l: seq<Entry>, timeout: nat, looks: seq<Look>, net: Network, stop: nat)
    requires |looks| >= |l| && stop < |l|
  {
    && (timeout == 0 || looks[stop].now >= l[stop].last + timeout)
    && (!net.open || looks[stop].outcome.Broken?
        || (looks[stop].outcome.Short? && looks[stop].outcome.n < |l[stop].packet|))
  }

  /** What the network takes of the packet at which the pass stops. */
  ghost function PartAt(l: seq<Entry>, looks: seq<Look>, net: Network, stop: nat): seq<Byte>
    requires |looks| >= |l|
  {
    if stop < |l| && net.open && looks[stop].outcome.Short? && looks[stop].outcome.n < |l[stop].packet|
    then l[stop].packet[..looks[stop].outcome.n] else []
  }

  /** A pass up to `stop` that writes the packets at `from`. */
  ghost predicate Pass(l: seq<Entry>, timeout: nat, looks: seq<Look>, net: Network, list: seq<Entry>, after: Network,
                       status: WriteStatus, from: seq<nat>, stop: nat)
    requires |looks| >= |l| == |list|
  {
    && DuePositions(l, timeout, looks, from, stop) && Timed(l, list, timeout, looks, stop)
    && (stop < |l| ==> StopsAt(l, timeout, looks, net, stop))
    && (from != [] ==> net.open)
    && after.wire == net.wire + Joined(PacketsAt(l, from)) + PartAt(l, looks, net, stop)
    && after.open == (net.open && !(stop < |l| && looks[stop].outcome.Broken?))
    && (status == Written <==> stop == |l|)
  }

  /** A pass writes exactly the stored packets whose timeout has passed, unchanged and in order, up to the first that
      the network does not take as a whole. */
  lemma {:induction false} ResentAreDue(l: seq<Entry>, timeout: nat, looks: seq<Look>, net: Network)
    returns (from: seq<nat>, stop: nat)
    requires |looks| >= |l|
    ensures var (list, after, status) := Resend(l, timeout, looks, net);
            Pass(l, timeout, looks, net, list, after, status, from, stop)
    decreases |l|
  {
    hide Pass;
    from, stop := [], 0;
    if l == [] {
      NothingListed(timeout, looks, net);
    } else {
      ResendFirst(l, timeout, looks, net);
      var due := Due(l[0], looks[0].now, timeout);
      var (sent, status) := Attempt(net, l[0], looks[0], timeout);
      if status == Written {
        hide Resend;
        from, stop := ResentAreDue(l[1..], timeout, looks[1..], sent);
        var (list, after, final) := Resend(l[1..], timeout, looks[1..], sent);
        PassFirst(l, timeout, looks, net, list, after, final, from, stop);
        from, stop := (if due then [0] else []) + Later(from), stop + 1;
      } else {
        PassStops(l, timeout, looks, net);
      }
    }
  }

  function Later(from: seq<nat>): (r: seq<nat>)
    ensures |r| == |from| && forall i :: 0 <= i < |from| ==> r[i] == from[i] + 1
  {
    seq(|from|, i requires 0 <= i < |from| => from[i] + 1)
  }

  lemma NothingListed(timeout: nat, looks: seq<Look>, net: Network)
    ensures Pass([], timeout, looks, net, [], net, Written, [], 0)
  {
    assert net.wire + Joined([]) + [] == net.wire;
  }

  /** The first entry is due and its packet is not taken as a whole. */
  lemma PassStops(l: seq<Entry>, timeout: nat, looks: seq<Look>, net: Network)
    requires l != [] && |looks| >= |l| && Attempt(net, l[0], looks[0], timeout).1 != Written
    ensures var (sent, status) := Attempt(net, l[0], looks[0], timeout);
            Pass(l, timeout, looks, net, [Touched(l[0], looks[0].now, timeout)] + l[1..], sent, status, [], 0)
  {
    var sent := Attempt(net, l[0], looks[0], timeout).0;
    assert net.wire + Joined(PacketsAt(l, [])) + PartAt(l, looks, net, 0) == sent.wire;
  }

  /** An entry in front, whose packet is written if it is due. */
  lemma PassFirst(l: seq<Entry>, timeout: nat, looks: seq<Look>, net: Network, list: seq<Entry>, after: Network,
                  status: WriteStatus, from: seq<nat>, stop: nat)
    requires l != [] && |looks| >= |l| == |list| + 1 && Attempt(net, l[0], looks[0], timeout).1 == Written
    requires Pass(l[1..], timeout, looks[1..], Attempt(net, l[0], looks[0], timeout).0, list, after, status, from, stop)
    ensures Pass(l, timeout, looks, net, [Touched(l[0], looks[0].now, timeout)] + list, after, status,
                 (if Due(l[0], looks[0].now, timeout) then [0] else []) + Later(from), stop + 1)
  {
    hide Joined;
    var due, sent := Due(l[0], looks[0].now, timeout), Attempt(net, l[0], looks[0], timeout).0;
    var all: seq<nat> := (if due then [0] else []) + Later(from);
    PositionsFirst(l, timeout, looks, from, stop);
    TimesFirst(l, list, timeout, looks, stop);
    WireFirst(l, net.wire, sent.wire, from, due);
    hide DuePositions, Timed;
    assert stop < |l| - 1 ==> looks[1..][stop] == looks[stop + 1] && l[1..][stop] == l[stop + 1];
    assert PartAt(l, looks, net, stop + 1) == PartAt(l[1..], looks[1..], sent, stop);
  }

  lemma PositionsFirst(l: seq<Entry>, timeout: nat, looks: seq<Look>, from: seq<nat>, stop: nat)
    requires l != [] && |looks| >= |l| && DuePositions(l[1..], timeout, looks[1..], from, stop)
    ensures DuePositions(l, timeout, looks, (if Due(l[0], looks[0].now, timeout) then [0] else []) + Later(from),
                         stop + 1)
  {
    var due := Due(l[0], looks[0].now, timeout);
    var all: seq<nat> := (if due then [0] else []) + Later(from);
    forall k | 0 <= k < stop + 1
      ensures k in all <==> timeout == 0 || looks[k].now >= l[k].last + timeout
    {
      if k > 0 {
        LaterHas(from, k, due);
        assert looks[1..][k - 1] == looks[k] && l[1..][k - 1] == l[k];
      }
    }
  }

  lemma LaterHas(from: seq<nat>, k: nat, due: bool)
    requires k > 0
    ensures k in (if due then [0] else []) + Later(from) <==> k - 1 in from
  {
    if k - 1 in from {
      var i :| 0 <= i < |from| && from[i] == k - 1;
      assert Later(from)[i] == k;
    }
  }

  lemma TimesFirst(l: seq<Entry>, list: seq<Entry>, timeout: nat, looks: seq<Look>, stop: nat)
    requires l != [] && |looks| >= |l| == |list| + 1 && Timed(l[1..], list, timeout, looks[1..], stop)
    ensures Timed(l, [Touched(l[0], looks[0].now, timeout)] + list, timeout, looks, stop + 1)
  {
    forall k | 1 <= k < |l| ensures looks[1..][k - 1] == looks[k] && l[1..][k - 1] == l[k] {
    }
  }

  lemma WireFirst(l: seq<Entry>, before: seq<Byte>, sent: seq<Byte>, from: seq<nat>, due: bool)
    requires l != [] && forall i :: 0 <= i < |from| ==> from[i] < |l| - 1
    requires sent == if due then before + l[0].packet else before
    ensures sent + Joined(PacketsAt(l[1..], from))
            == before + Joined(PacketsAt(l, (if due then [0] else []) + Later(from)))
  {
    hide Joined;
    var all: seq<nat> := (if due then [0] else []) + Later(from);
    var ps := PacketsAt(l, all);
    if due {
      assert ps[0] == l[0].packet && ps[1..] == PacketsAt(l[1..], from);
      JoinedCons(ps);
      assert before + (ps[0] + Joined(ps[1..])) == (before + ps[0]) + Joined(ps[1..]);
    } else {
      assert ps == PacketsAt(l[1..], from);
    }
  }

  // ----- what is on the wire -----

  /** The network never takes a part of a packet. */
  predicate NoShortWrites(e: Event) {
    match e
    case Publish(_, _, _, _, o) => o.Short? ==> o.n == 0
    case Arrive(_, _, o) => o.Short? ==> o.n == 0
    case Repub(looks) => forall k :: 0 <= k < |looks| ==> looks[k].outcome.Short? ==> looks[k].outcome.n == 0
    case _ => true
  }

  /** Over every run without short writes the stream is made of whole packets, which the other side can cut out of it
      in one way only. */
  lemma {:induction false} WireFramed(states: seq<Client>, events: seq<Event>, limit: PacketId, timeout: nat, k: nat)
    requires IsRun(states, events, limit, timeout) && k <= |events|
    requires forall i :: 0 <= i < k ==> NoShortWrites(events[i])
    ensures Framed(states[k].net.wire)
    ensures forall ps: seq<seq<Byte>>, qs: seq<seq<Byte>> ::
      AllFrames(ps) && AllFrames(qs) && Joined(ps) == states[k].net.wire == Joined(qs) ==> ps == qs
  {
    hide Framed, Step, NoShortWrites, AllFrames, Joined;
    if k == 0 {
      FramedEmpty();
    } else {
      WireFramed(states, events, limit, timeout, k - 1);
      RunsKeep(states, events, limit, timeout, k - 1);
      StepFramed(states[k - 1], events[k - 1], limit, timeout);
    }
    forall ps: seq<seq<Byte>>, qs: seq<seq<Byte>>
      | AllFrames(ps) && AllFrames(qs) && Joined(ps) == states[k].net.wire == Joined(qs)
      ensures ps == qs
    {
      FramesDecode(ps, qs);
    }
  }

  lemma StepFramed(c: Client, e: Event, limit: PacketId, timeout: nat)
    requires Inv(c.list, limit) && Possible(c, e) && NoShortWrites(e) && Framed(c.net.wire)
    ensures Framed(Step(c, e, limit, timeout).net.wire)
  {
    hide Framed, Packet, IsFrame, Send, Scan, Fits, Carries, AckPacket, Resend;
    match e {
      case Publish(topic, payload, qos, now, outcome) =>
        var m := Message(topic, payload, qos, if qos == 0 then 0 else NextId(c.last));
        ClientLimitsFit(m);
        PacketIsFrame(m);
        SendKeepsFramed(c.net, Packet(m), outcome);
      case Arrive(header, body, outcome) =>
        if Readable(body, 1) {
          AckIsFrame(Read(body, 1).id);
          SendKeepsFramed(c.net, AckPacket(Read(body, 1).id), outcome);
        }
      case Repub(looks) =>
        ResendFramed(c.list, timeout, looks, c.net);
      case Lost =>
      case Reconnected => FramedEmpty();
    }
  }

  lemma {:induction false} ResendFramed(l: seq<Entry>, timeout: nat, looks: seq<Look>, net: Network)
    requires |looks| >= |l| && (forall k :: 0 <= k < |l| ==> Carries(l[k])) && Framed(net.wire)
    requires forall k :: 0 <= k < |looks| ==> looks[k].outcome.Short? ==> looks[k].outcome.n == 0
    ensures Framed(Resend(l, timeout, looks, net).1.wire)
    decreases |l|
  {
    if l != [] {
      hide Framed, IsFrame, Carries, Due, Touched;
      ResendFirst(l, timeout, looks, net);
      CarriedIsFrame(l[0]);
      SendKeepsFramed(net, l[0].packet, looks[0].outcome);
      var (sent, status) := Attempt(net, l[0], looks[0], timeout);
      assert Framed(sent.wire);
      hide Send, Resend, Attempt;
      if status == Written { ResendFramed(l[1..], timeout, looks[1..], sent); }
    }
  }

  lemma CarriedIsFrame(e: Entry)
    requires Carries(e)
    ensures IsFrame(e.packet)
  {
    hide IsFrame, Packet, Fits;
    var topic, payload :| e.id < 0x1_0000 && WithinLimits(topic, payload) && e.packet == Qos1Packet(topic, payload, e.id);
    ClientLimitsFit(Message(topic, payload, 1, e.id));
    PacketIsFrame(Message(topic, payload, 1, e.id));
  }

  /** n publications in a row. */
  ghost function Published(n: nat, limit: PacketId, timeout: nat): Client {
    if n == 0 then FRESH
    else Step(Published(n - 1, limit, timeout), Publish([0x2F], [], 1, 0, Whole), limit, timeout)
  }

  /** The bound of limit + 2 is reached. */
  lemma {:induction false} BoundReached(n: nat, limit: PacketId, timeout: nat)
    requires n <= limit + 2 && n < 0x1_0000
    ensures var c := Published(n, limit, timeout);
            c.last == n && |c.list| == n && forall k :: 0 <= k < n ==> c.list[k].id == k + 1
  {
    hide Qos1Packet;
    if n > 0 {
      BoundReached(n - 1, limit, timeout);
      ScanMeaning(Published(n - 1, limit, timeout).list, n, limit, 0);
    }
  }
}
