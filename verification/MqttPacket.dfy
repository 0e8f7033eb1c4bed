/** Remaining-length encoding and PUBLISH packets of the MQTT client. */
module MqttPacket {
  import opened Arithmetic
  import opened Bytes
  import opened Buffers

  datatype Status =
    Ok | NoData | ReadFailed | MalformedRemainingLen | MalformedRemainingBytes | InvalidPublishPacket

  // ----- remaining length, section 2.2.3 of MQTT 3.1.1 -----

  const REMAINLEN_MAX := 0x1000_0000

  /** Seven bits a byte, lowest first; the top bit says that more follow. */
  function RemainBytes(v: nat): (b: seq<Byte>)
    ensures |b| >= 1
    decreases v
  {
    if v < 128 then [v] else [v % 128 + 128] + RemainBytes(v / 128)
  }

  /** The number in a run of such bytes. */
  function RemainValue(b: seq<Byte>): nat {
    if b == [] then 0 else b[0] % 128 + 128 * RemainValue(b[1..])
  }

  /** A complete length field: only the last byte has its top bit clear. */
  ghost predicate Complete(b: seq<Byte>) {
    b != [] && b[|b| - 1] < 128 && forall k :: 0 <= k < |b| - 1 ==> b[k] >= 128
  }

  lemma {:induction false} RemainRoundTrip(v: nat)
    ensures Complete(RemainBytes(v)) && RemainValue(RemainBytes(v)) == v
  {
    if v < 128 {
      assert RemainBytes(v) == [v] && [v][1..] == [];
    } else {
      hide Complete, RemainValue;
      RemainRoundTrip(v / 128);
      RemainCons(v % 128 + 128, RemainBytes(v / 128));
      LowDigit(v);
    }
  }

  lemma RemainCons(low: Byte, rest: seq<Byte>)
    requires Complete(rest) && low >= 128
    ensures Complete([low] + rest) && RemainValue([low] + rest) == low % 128 + 128 * RemainValue(rest)
  {
    assert ([low] + rest)[1..] == rest;
  }

  lemma LowDigit(v: nat)
    ensures (v % 128 + 128) % 128 + 128 * (v / 128) == v
  {
  }

  /** Four bytes are enough exactly below 2^28. */
  lemma {:induction false} RemainLength(v: nat)
    ensures |RemainBytes(v)| <= 4 <==> v < 268_435_456
  {
    var a, b, c := v / 128, v / 128 / 128, v / 128 / 128 / 128;
    assert v >= 128 ==> |RemainBytes(v)| == 1 + |RemainBytes(a)|;
    assert a >= 128 ==> |RemainBytes(a)| == 1 + |RemainBytes(b)|;
    assert b >= 128 ==> |RemainBytes(b)| == 1 + |RemainBytes(c)|;
    assert c >= 128 ==> |RemainBytes(c)| == 1 + |RemainBytes(c / 128)|;
    assert v < REMAINLEN_MAX <==> c < 128;
  }

  /** A complete length field is decided by the bytes alone: no other one begins the same way. */
  lemma CompletePrefixFree(a: seq<Byte>, b: seq<Byte>)
    requires Complete(a) && Complete(b) && (a <= b || b <= a)
    ensures a == b
  {
    assert a <= b ==> b[|a| - 1] == a[|a| - 1];
    assert b <= a ==> a[|b| - 1] == b[|b| - 1];
  }

  method EncodeRemainLen(input: nat, output: array<Byte>, start: nat) returns (idx: nat)
    requires start + |RemainBytes(input)| <= output.Length
    modifies output
    ensures idx == start + |RemainBytes(input)|
    ensures output[..] == Splice(old(output[..]), start, RemainBytes(input))
  {
    hide Splice;
    ghost var o, done: seq<Byte> := output[..], [];
    SpliceEmpty(o, start);
    var v := input;
    idx := start;
    while true
      invariant idx == start + |done| <= output.Length == |o|
      invariant output[..] == Splice(o, start, done)
      invariant done + RemainBytes(v) == RemainBytes(input)
      decreases v
    {
      var encoded: Byte := v % 128;
      ghost var rest := RemainBytes(v);
      v := v / 128;
      if v > 0 { encoded := encoded as int + 128; }
      SpliceSnoc(o, start, done, encoded);
      output[idx] := encoded;
      idx := idx + 1;
      done := done + [encoded];
      if v == 0 { break; }
      assert rest == [encoded] + RemainBytes(v);
      assert done + RemainBytes(v) == done[..|done| - 1] + rest;
    }
    assert done == RemainBytes(input);
  }

  /** Reading from the network is taking bytes from `net` at `pos`; when they run out the read fails. */
  method ReadRemainLen(net: seq<Byte>, pos: nat) returns (ret: Status, value: nat, next: nat)
    requires pos <= |net|
    ensures ret == Ok || ret == ReadFailed || ret == MalformedRemainingLen
    ensures ret == Ok ==> pos < next <= |net| && next - pos <= 4
                          && Complete(net[pos..next]) && value == RemainValue(net[pos..next]) < REMAINLEN_MAX
    ensures ret == MalformedRemainingLen <==> pos + 5 <= |net| && forall k :: pos <= k < pos + 4 ==> net[k] >= 128
    ensures ret == ReadFailed <==> |net| < pos + 5 && forall k :: pos <= k < |net| && k < pos + 4 ==> net[k] >= 128
  {
    hide RemainValue, Power128;
    var multiplier: nat, len: nat := 1, 0;
    next := pos;
    var i := 0;
    Powers();
    NoDigits();
    assert net[pos..pos] == [];
    while true
      invariant next == pos + i <= |net| && i <= 4
      invariant multiplier == Power128(i)
      invariant forall k :: pos <= k < next ==> net[k] >= 128
      invariant len == RemainValue(net[pos..next]) < multiplier
      decreases 5 - i
    {
      if next >= |net| { return ReadFailed, 0, next; }
      var ch := net[next];
      AppendDigit(net[pos..next], ch);
      NextPower(i);
      assert net[pos..next + 1] == net[pos..next] + [ch];
      if multiplier > 128 * 128 * 128 { return MalformedRemainingLen, 0, next; }
      len := len + ch % 128 * multiplier;
      multiplier := multiplier * 128;
      next := next + 1;
      i := i + 1;
      if ch < 128 { break; }
    }
    return Ok, len, next;
  }

  function Power128(i: nat): (p: nat)
    ensures p > 0
  {
    if i == 0 then 1 else 128 * Power128(i - 1)
  }

  lemma NextPower(i: nat)
    ensures Power128(i + 1) == 128 * Power128(i)
  {
  }

  lemma NoDigits()
    ensures RemainValue([]) == 0
  {
  }

  /** Byte i holds the i-th digit to the base 128, and its top bit says whether more follow. */
  lemma {:induction false} RemainByteAt(v: nat, i: nat)
    requires i < |RemainBytes(v)|
    ensures RemainBytes(v)[i] == v / Power128(i) % 128 + if i + 1 < |RemainBytes(v)| then 128 else 0
  {
    if i > 0 {
      RemainByteAt(v / 128, i - 1);
      DivDiv(v, 128, Power128(i - 1));
    }
  }

  /** 321 is 2 * 128 + 65. */
  lemma RemainExample()
    ensures RemainBytes(321) == [0xC1, 0x02] && RemainBytes(0) == [0] && RemainBytes(127) == [0x7F]
  {
    assert RemainBytes(321) == [321 % 128 + 128] + RemainBytes(2);
  }

  lemma Powers()
    ensures Power128(0) == 1 && Power128(1) == 128 && Power128(2) == 0x4000
    ensures Power128(3) == 128 * 128 * 128 && Power128(4) == REMAINLEN_MAX
  {
  }

  lemma {:induction false} AppendDigit(b: seq<Byte>, ch: Byte)
    ensures RemainValue(b + [ch]) == RemainValue(b) + ch % 128 * Power128(|b|)
  {
    if b == [] {
      assert [] + [ch] == [ch] && [ch][1..] == [];
    } else {
      AppendDigit(b[1..], ch);
      assert (b + [ch])[1..] == b[1..] + [ch];
      Distribute(ch % 128, Power128(|b| - 1));
    }
  }

  lemma Distribute(d: nat, w: nat)
    ensures 128 * (d * w) == d * (128 * w)
  {
  }

  // ----- PUBLISH, section 3.3 of MQTT 3.1.1 -----

  const PUBLISH_TYPE: Byte := 0x30
  const TOPIC_MAXLEN := 128
  const PAYLOAD_MAXLEN := 1024 * 1024 + 1

  type Qos = q: nat | q <= 1

  datatype Message = Message(topic: seq<Byte>, payload: seq<Byte>, qos: Qos, id: nat)

  /** What the packet format can carry: lengths in two and four bytes, and a packet identifier only with QoS 1. */
  predicate Fits(m: Message) {
    && |m.topic| < 0x1_0000 && m.id < 0x1_0000 && (m.qos == 0 ==> m.id == 0)
    && |Body(m)| < REMAINLEN_MAX
  }

  function Two(v: nat): (b: seq<Byte>)
    requires v < 0x1_0000
    ensures |b| == 2
  {
    [v / 256, v % 256]
  }

  /** Variable header and payload. */
  function Body(m: Message): seq<Byte> {
    Two(|m.topic| % 0x1_0000) + m.topic + IdBytes(m) + m.payload
  }

  function IdBytes(m: Message): seq<Byte> {
    if m.qos == 1 then Two(m.id % 0x1_0000) else []
  }

  function Packet(m: Message): seq<Byte> {
    [PUBLISH_TYPE + 2 * m.qos] + RemainBytes(|Body(m)|) + Body(m)
  }

  /** The client's own limits are inside what the format can carry, so its length field has at most four bytes. */
  lemma ClientLimitsFit(m: Message)
    requires |m.topic| < TOPIC_MAXLEN && |m.payload| < PAYLOAD_MAXLEN && m.id < 0x1_0000 && (m.qos == 0 ==> m.id == 0)
    ensures Fits(m) && |RemainBytes(|Body(m)|)| <= 4
  {
    hide RemainBytes;
    RemainLength(|Body(m)|);
  }

  /** Two bytes, the more significant one first. */
  method PutTwo(output: array<Byte>, at: nat, v: nat)
    requires at + 2 <= output.Length && v < 0x1_0000
    modifies output
    ensures output[..] == Splice(old(output[..]), at, Two(v))
  {
    output[at] := v / 256 % 256;
    output[at + 1] := v % 256;
  }

  method WriteString(input: array<Byte>, inputLen: nat, output: array<Byte>, start: nat)
    requires inputLen <= input.Length && inputLen < 0x1_0000 && start + 2 + inputLen <= output.Length && input != output
    modifies output
    ensures output[..] == Splice(old(output[..]), start, Two(inputLen) + input[..inputLen])
  {
    hide Splice;
    ghost var o := output[..];
    PutTwo(output, start, inputLen);
    CopyInto(output, start + 2, input[..inputLen]);
    SpliceSplice(o, start, Two(inputLen), input[..inputLen]);
  }

  /** The packet that _core_mqtt_pub builds; the buffer may be longer than the packet. */
  method BuildPublish(topic: array<Byte>, topicLen: nat, payload: array<Byte>, payloadLen: nat, qos: Qos, packetId: nat)
    returns (pkt: array<Byte>, pktLen: nat)
    requires topicLen <= topic.Length && payloadLen <= payload.Length
    requires Fits(Message(topic[..topicLen], payload[..payloadLen], qos, packetId))
    ensures fresh(pkt) && pktLen <= pkt.Length
    ensures pkt[..pktLen] == Packet(Message(topic[..topicLen], payload[..payloadLen], qos, packetId))
  {
    hide Splice, RemainBytes, Packet, Body;
    ghost var m := Message(topic[..topicLen], payload[..payloadLen], qos, packetId);
    BodyLength(m);
    var remainlen := topicLen + payloadLen + 2 + if qos == 1 then 2 else 0;
    RemainLength(remainlen);
    pkt := new Byte[1 + 4 + remainlen](_ => 0);
    var header: Byte := PUBLISH_TYPE + 2 * qos;
    ghost var o := pkt[..];
    ghost var done: seq<Byte> := [header];
    SpliceEmpty(o, 0);
    SpliceSnoc<Byte>(o, 0, [], header);
    pkt[0] := header;
    assert [] + [header] == done;
    var idx := EncodeRemainLen(remainlen, pkt, 1);
    SpliceSplice(o, 0, done, RemainBytes(remainlen));
    done := done + RemainBytes(remainlen);
    pktLen := PutBody(pkt, idx, topic, topicLen, payload, payloadLen, qos, packetId);
    SpliceSplice(o, 0, done, Body(m));
    done := done + Body(m);
    SpliceRead(o, 0, done);
    assert pkt[..pktLen] == pkt[..][0..0 + pktLen];
    PacketParts(m);
  }

  lemma PacketParts(m: Message)
    ensures Packet(m) == [PUBLISH_TYPE + 2 * m.qos as Byte] + RemainBytes(|Body(m)|) + Body(m)
  {
    hide RemainBytes, Body;
  }

  /** Variable header and payload behind the length field. */
  method PutBody(pkt: array<Byte>, start: nat, topic: array<Byte>, topicLen: nat, payload: array<Byte>, payloadLen: nat,
                 qos: Qos, packetId: nat)
    returns (idx: nat)
    requires topicLen <= topic.Length && payloadLen <= payload.Length && topic != pkt && payload != pkt
    requires topicLen < 0x1_0000 && packetId < 0x1_0000
    requires start + |Body(Message(topic[..topicLen], payload[..payloadLen], qos, packetId))| <= pkt.Length
    modifies pkt
    ensures var b := Body(Message(topic[..topicLen], payload[..payloadLen], qos, packetId));
            idx == start + |b| && pkt[..] == Splice(old(pkt[..]), start, b)
  {
    hide Splice, Two, Body, IdBytes;
    ghost var m := Message(topic[..topicLen], payload[..payloadLen], qos, packetId);
    BodyLength(m);
    ghost var o := pkt[..];
    WriteString(topic, topicLen, pkt, start);
    ghost var done := Two(topicLen) + topic[..topicLen];
    idx := start + 2 + topicLen;
    if qos == 1 {
      PutTwo(pkt, idx, packetId);
      SpliceSplice(o, start, done, Two(packetId));
      idx := idx + 2;
    }
    IdCases(m, done);
    done := done + IdBytes(m);
    CopyInto(pkt, idx, payload[..payloadLen]);
    SpliceSplice(o, start, done, m.payload);
    idx := idx + payloadLen;
    BodyParts(m);
  }

  lemma BodyParts(m: Message)
    requires |m.topic| < 0x1_0000
    ensures Body(m) == Two(|m.topic|) + m.topic + IdBytes(m) + m.payload
  {
    hide Two, IdBytes;
  }

  lemma BodyLength(m: Message)
    ensures |Body(m)| == 2 + |m.topic| + (if m.qos == 1 then 2 else 0) + |m.payload|
  {
    hide Two;
  }

  /** The bytes of a packet: type and QoS, the length of what follows the length field, the length of the topic and the
      topic, the identifier if there is one, and the payload. */
  lemma PacketLayout(m: Message)
    requires Fits(m)
    ensures var p, at, n := Packet(m), 1 + |RemainBytes(|Body(m)|)|, |m.topic|;
            var end := at + 2 + n;
            && p[0] == (if m.qos == 1 then 0x32 else 0x30) && p[1..at] == RemainBytes(|p| - at)
            && |p| >= end && p[at] as int * 256 + p[at + 1] == n && p[at + 2..end] == m.topic
            && (m.qos == 0 ==> p[end..] == m.payload)
            && (m.qos == 1 ==>
                |p| >= end + 2 && p[end] as int * 256 + p[end + 1] == m.id && p[end + 2..] == m.payload)
  {
    hide RemainBytes, Two, Body;
    var p, at := Packet(m), 1 + |RemainBytes(|Body(m)|)|;
    assert p[0] == 0x30 + 2 * m.qos && p[1..at] == RemainBytes(|Body(m)|) && p[at..] == Body(m);
    hide Packet, RemainBytes;
    BodyLayout(m, p, at);
    TwoBack(|m.topic|, p, at);
    if m.qos == 1 { TwoBack(m.id, p, at + 2 + |m.topic|); }
  }

  lemma BodyLayout(m: Message, p: seq<Byte>, at: nat)
    requires Fits(m) && at <= |p| && p[at..] == Body(m)
    ensures var end := at + 2 + |m.topic|;
            && |p| >= end && p[at..at + 2] == Two(|m.topic|) && p[at + 2..end] == m.topic
            && (m.qos == 0 ==> p[end..] == m.payload)
            && (m.qos == 1 ==> |p| >= end + 2 && p[end..end + 2] == Two(m.id) && p[end + 2..] == m.payload)
  {
    hide Two, RemainBytes;
    var b, n, ids := Body(m), |m.topic|, IdBytes(m);
    FourParts(Two(n), m.topic, ids, m.payload);
    BodyLength(m);
    hide Body;
    Within(p, at, 0, 2);
    Within(p, at, 2, 2 + n);
    Within(p, at, 2 + n, 2 + n + |ids|);
    Within(p, at, 2 + n + |ids|, |b|);
  }

  lemma Within(p: seq<Byte>, at: nat, i: nat, j: nat)
    requires at + j <= |p| && i <= j
    ensures p[at..][i..j] == p[at + i..at + j]
    ensures at + j == |p| ==> p[at..][i..] == p[at + i..]
  {
  }

  lemma IdCases(m: Message, d: seq<Byte>)
    requires m.id < 0x1_0000
    ensures if m.qos == 1 then IdBytes(m) == Two(m.id) else d + IdBytes(m) == d
  {
  }

  // ----- parsing -----

  function TwoAt(b: seq<Byte>, i: nat): (v: nat)
    requires i + 2 <= |b|
    ensures v < 0x1_0000
  {
    b[i] as int * 256 + b[i + 1]
  }

  /** A body is read as a message exactly when it is long enough for what its topic length announces. */
  predicate Readable(body: seq<Byte>, qos: nat) {
    qos <= 1 && |body| >= 2 && |body| >= 2 + TwoAt(body, 0) + if qos == 1 then 2 else 0
  }

  function Read(body: seq<Byte>, qos: nat): Message
    requires Readable(body, qos)
  {
    var n := TwoAt(body, 0);
    if qos == 1 then Message(body[2..2 + n], body[4 + n..], 1, TwoAt(body, 2 + n))
    else Message(body[2..2 + n], body[2 + n..], 0, 0)
  }

  /** Reading inverts building: the parts of a readable body make up the body again, without gap or overlap. */
  lemma ReadPartitions(body: seq<Byte>, qos: nat)
    requires Readable(body, qos)
    ensures Body(Read(body, qos)) == body
  {
    hide Two, TwoAt;
    var n, m := TwoAt(body, 0), Read(body, qos);
    assert |m.topic| == n && m.topic == body[2..2 + n];
    TwoForth(body, 0);
    if qos == 1 {
      TwoForth(body, 2 + n);
      assert IdBytes(m) == body[2 + n..4 + n] && m.payload == body[4 + n..];
      hide Read;
      Rejoin(body, 2, 2 + n, 4 + n);
    } else {
      assert IdBytes(m) == [] == body[2 + n..2 + n] && m.payload == body[2 + n..];
      hide Read;
      Rejoin(body, 2, 2 + n, 2 + n);
    }
  }

  lemma TwoForth(b: seq<Byte>, i: nat)
    requires i + 2 <= |b|
    ensures Two(TwoAt(b, i)) == b[i..i + 2]
  {
    LowByte(b[i + 1], b[i]);
  }

  lemma Rejoin(b: seq<Byte>, i: nat, j: nat, k: nat)
    requires i <= j <= k <= |b|
    ensures b == b[0..i] + b[i..j] + b[j..k] + b[k..]
  {
  }

  /** What was built is read back. */
  lemma BodyReadBack(m: Message)
    requires |m.topic| < 0x1_0000 && m.id < 0x1_0000 && (m.qos == 0 ==> m.id == 0)
    ensures Readable(Body(m), m.qos) && Read(Body(m), m.qos) == m
  {
    var b, n, ids := Body(m), |m.topic|, IdBytes(m);
    IdCases(m, []);
    FourParts(Two(n), m.topic, ids, m.payload);
    TwoBack(n, b, 0);
    if m.qos == 1 { TwoBack(m.id, b, 2 + n); } else { assert ids == [] + ids; }
  }

  lemma FourParts(a: seq<Byte>, t: seq<Byte>, i: seq<Byte>, p: seq<Byte>)
    ensures var b := a + t + i + p;
            && b[0..|a|] == a && b[|a|..|a| + |t|] == t
            && b[|a| + |t|..|a| + |t| + |i|] == i && b[|a| + |t| + |i|..] == p
  {
  }

  lemma TwoBack(v: nat, b: seq<Byte>, i: nat)
    requires v < 0x1_0000 && i + 2 <= |b| && b[i..i + 2] == Two(v)
    ensures TwoAt(b, i) == v
  {
    assert b[i] == b[i..i + 2][0] && b[i + 1] == b[i..i + 2][1];
  }

  /** _core_mqtt_pub_handler: positions of topic and payload in the body, and the packet identifier. */
  method ParsePublish(input: array<Byte>, len: nat, qos: nat)
    returns (ret: Status, topicAt: nat, topicLen: nat, id: nat, payloadAt: nat, payloadLen: int)
    requires len <= input.Length && len < 0x1_0000_0000
    ensures ret == if Readable(input[..len], qos) then Ok else InvalidPublishPacket
    ensures ret == Ok ==>
      && topicAt + topicLen <= len && payloadLen >= 0 && payloadAt + payloadLen == len
      && Read(input[..len], qos) ==
         Message(input[topicAt..topicAt + topicLen], input[payloadAt..payloadAt + payloadLen], qos, id)
  {
    topicAt, topicLen, id, payloadAt, payloadLen := 0, 0, 0, 0, 0;
    if len == 0 || qos > 1 { return InvalidPublishPacket, topicAt, topicLen, id, payloadAt, payloadLen; }
    if len < 2 { return InvalidPublishPacket, topicAt, topicLen, id, payloadAt, payloadLen; }
    ghost var body := input[..len];
    var strlen: nat := input[0] as int * 256 + input[1];
    assert strlen == TwoAt(body, 0);
    var idx: nat := 2;
    topicAt, topicLen := idx, strlen;
    idx := idx + strlen;
    if len < idx { return InvalidPublishPacket, topicAt, topicLen, id, payloadAt, payloadLen; }
    if qos == 1 {
      if len < idx + 2 { return InvalidPublishPacket, topicAt, topicLen, id, payloadAt, payloadLen; }
      id := input[idx] as int * 256 + input[idx + 1];
      assert id == TwoAt(body, idx);
      idx := idx + 2;
    }
    if len - 2 - topicLen < 0 { return InvalidPublishPacket, topicAt, topicLen, id, payloadAt, payloadLen; }
    payloadAt, payloadLen := idx, len - 2 - topicLen;
    if qos == 1 { payloadLen := payloadLen - 2; }
    SliceOfStart(input, len, topicAt, topicAt + topicLen);
    SliceOfStart(input, len, payloadAt, len);
    ret := Ok;
  }

  lemma SliceOfStart(a: array<Byte>, n: nat, i: nat, j: nat)
    requires i <= j <= n <= a.Length
    ensures a[..n][i..j] == a[i..j]
    ensures j == n ==> a[..n][i..] == a[i..j]
  {
  }

  // ----- frames -----

  /** The bytes from pos to next are a packet with a length field of k bytes. */
  ghost predicate FrameWith(net: seq<Byte>, pos: nat, k: nat, next: nat) {
    && 1 <= k <= 4 && pos + 1 + k <= next <= |net|
    && var field := net[pos + 1..pos + 1 + k];
    Complete(field) && RemainValue(field) == next - (pos + 1 + k)
  }

  ghost predicate FrameAt(net: seq<Byte>, pos: nat, body: seq<Byte>, next: nat) {
    exists k: nat :: FrameWith(net, pos, k, next) && body == net[pos + 1 + k..next]
  }

  /** Where the length field ends is decided by its bytes. */
  lemma FieldEnds(net: seq<Byte>, at: nat, k: nat, l: nat)
    requires at + k <= |net| && at + l <= |net| && Complete(net[at..at + k]) && Complete(net[at..at + l])
    ensures k == l
  {
    var a, b := net[at..at + k], net[at..at + l];
    if k <= l { assert b[..k] == a; } else { assert a[..l] == b; }
    CompletePrefixFree(a, b);
  }

  /** At most one packet begins at a position. */
  lemma FrameOnce(net: seq<Byte>, pos: nat, k: nat, next: nat, k': nat, next': nat)
    requires FrameWith(net, pos, k, next) && FrameWith(net, pos, k', next')
    ensures k == k' && next == next'
  {
    hide Complete, RemainValue;
    FieldEnds(net, pos + 1, k, k');
  }

  /** The fixed header, the remaining length and that many bytes. */
  method ReadFrame(net: seq<Byte>, pos: nat) returns (ret: Status, body: seq<Byte>, next: nat)
    requires pos <= |net|
    ensures ret == Ok ==> FrameAt(net, pos, body, next) && |body| < REMAINLEN_MAX
    ensures ret != Ok ==> next == pos && forall k: nat, n: nat :: !FrameWith(net, pos, k, n)
    ensures ret == NoData <==> pos == |net|
    ensures ret in {Ok, NoData, ReadFailed, MalformedRemainingLen, MalformedRemainingBytes}
  {
    hide Complete, RemainValue;
    body, next := [], pos;
    if pos == |net| { return NoData, body, next; }
    var len, at;
    ret, len, at := ReadRemainLen(net, pos + 1);
    if ret != Ok {
      NoField(net, pos);
      return ret, body, next;
    }
    ghost var k := at - (pos + 1);
    if len > |net| - at {
      forall k': nat, n: nat ensures !FrameWith(net, pos, k', n) {
        if FrameWith(net, pos, k', n) { FieldEnds(net, pos + 1, k, k'); }
      }
      return MalformedRemainingBytes, body, next;
    }
    body, next := net[at..at + len], at + len;
    assert FrameWith(net, pos, k, next);
  }

  lemma CompleteEnds(net: seq<Byte>, at: nat, k: nat)
    requires at + k <= |net| && Complete(net[at..at + k])
    ensures k > 0 && net[at + k - 1] < 128
  {
    var f := net[at..at + k];
    assert f[k - 1] == net[at + k - 1];
  }

  lemma NoField(net: seq<Byte>, pos: nat)
    requires forall k :: pos + 1 <= k < |net| && k < pos + 5 ==> net[k] >= 128
    ensures forall k: nat, n: nat :: !FrameWith(net, pos, k, n)
  {
    hide Complete, RemainValue;
    forall k: nat, n: nat ensures !FrameWith(net, pos, k, n) {
      if FrameWith(net, pos, k, n) { CompleteEnds(net, pos + 1, k); }
    }
  }

  // ----- receiving a message -----

  /** The bytes from pos to next are a PUBLISH packet with a length field of k bytes that carries m. */
  ghost predicate ReceivedWith(net: seq<Byte>, pos: nat, k: nat, m: Message, next: nat) {
    && FrameWith(net, pos, k, next)
    && var body, qos := net[pos + 1 + k..next], net[pos] / 2 % 4;
    net[pos] / 16 == 3 && Readable(body, qos) && m == Read(body, qos)
  }

  ghost predicate Received(net: seq<Byte>, pos: nat, m: Message, next: nat) {
    exists k: nat :: ReceivedWith(net, pos, k, m, next)
  }

  /** At most one message can be received at a position. */
  lemma ReceivedOnce(net: seq<Byte>, pos: nat, m: Message, next: nat, m': Message, next': nat)
    requires Received(net, pos, m, next) && Received(net, pos, m', next')
    ensures m == m' && next == next'
  {
    hide FrameWith, Readable, Read;
    var k: nat :| ReceivedWith(net, pos, k, m, next);
    var l: nat :| ReceivedWith(net, pos, l, m', next');
    FrameOnce(net, pos, k, next, l, next');
  }

  /** Whatever was sent is received: same topic, payload, QoS and packet identifier, and the rest is left alone. */
  lemma SentIsReceived(net: seq<Byte>, pos: nat, m: Message, rest: seq<Byte>)
    requires pos <= |net| && Fits(m) && net[pos..] == Packet(m) + rest
    ensures Received(net, pos, m, pos + |Packet(m)|)
  {
    hide Body, RemainBytes, Complete, Read, Readable, RemainValue;
    var n := |Body(m)|;
    var f := RemainBytes(n);
    var k, next := |f|, pos + |Packet(m)|;
    RemainRoundTrip(n);
    RemainLength(n);
    var p := Packet(m);
    assert p == [PUBLISH_TYPE + 2 * m.qos as Byte] + f + Body(m);
    WireSlice(net, pos, p, rest, 0, 1);
    WireSlice(net, pos, p, rest, 1, 1 + k);
    WireSlice(net, pos, p, rest, 1 + k, |p|);
    assert net[pos..pos + 1][0] == net[pos] && p[0..1][0] == p[0];
    assert p[1..1 + k] == f && p[1 + k..] == Body(m);
    assert net[pos + 1..pos + 1 + k] == f && net[pos + 1 + k..next] == Body(m);
    BodyReadBack(m);
    HeaderQos(m.qos);
    assert FrameWith(net, pos, k, next);
    assert ReceivedWith(net, pos, k, m, next);
  }

  lemma HeaderQos(q: Qos)
    ensures (PUBLISH_TYPE + 2 * q) / 2 % 4 == q && (PUBLISH_TYPE + 2 * q) / 16 == 3
  {
  }

  lemma WireSlice(net: seq<Byte>, pos: nat, p: seq<Byte>, rest: seq<Byte>, i: nat, j: nat)
    requires pos <= |net| && net[pos..] == p + rest && i <= j <= |p|
    ensures pos + j <= |net| && net[pos + i..pos + j] == p[i..j]
  {
    assert |net[pos..]| == |p| + |rest|;
    forall x | 0 <= x < j - i ensures net[pos + i..pos + j][x] == p[i..j][x] {
      assert net[pos..][i + x] == (p + rest)[i + x];
    }
  }

  lemma HeaderThere(net: seq<Byte>, pos: nat, k: nat, next: nat)
    requires FrameWith(net, pos, k, next)
    ensures pos + 1 + k <= next <= |net|
  {
  }

  lemma OnlyThis(net: seq<Byte>, pos: nat, k: nat, next: nat)
    requires FrameWith(net, pos, k, next)
    ensures forall m: Message, n: nat :: Received(net, pos, m, n) ==> ReceivedWith(net, pos, k, m, next) && n == next
  {
    hide FrameWith, Read, Readable;
    forall m: Message, n: nat | Received(net, pos, m, n) ensures ReceivedWith(net, pos, k, m, next) && n == next {
      var l: nat :| ReceivedWith(net, pos, l, m, n);
      FrameOnce(net, pos, k, next, l, n);
    }
  }

  /** The body of a PUBLISH packet as a message. */
  method HandlePublish(body: seq<Byte>, qos: nat) returns (ret: Status, m: Message)
    requires |body| < 0x1_0000_0000
    ensures ret == if Readable(body, qos) then Ok else InvalidPublishPacket
    ensures ret == Ok ==> m == Read(body, qos)
  {
    hide Read, Readable;
    m := Message([], [], 0, 0);
    var len := |body|;
    var remain := new Byte[len](i requires 0 <= i < len => body[i]);
    assert remain[..len] == body;
    var topicAt, topicLen, id, payloadAt, payloadLen;
    ret, topicAt, topicLen, id, payloadAt, payloadLen := ParsePublish(remain, len, qos);
    if ret == Ok {
      ReadQos(body, qos);
      m := Message(remain[topicAt..topicAt + topicLen], remain[payloadAt..payloadAt + payloadLen], qos, id);
    }
  }

  lemma ReadQos(body: seq<Byte>, qos: nat)
    requires Readable(body, qos)
    ensures qos <= 1 && Read(body, qos).qos == qos
  {
  }
}
