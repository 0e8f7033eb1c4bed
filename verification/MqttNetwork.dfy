/** The connection the client writes to, and how the other side can cut what arrives there into packets. */
module MqttNetwork {
  import opened Bytes
  import opened MqttPacket

  /** What the network does with a write: it takes all bytes, only the first n, or fails. */
  datatype Outcome = Whole | Short(n: nat) | Broken

  datatype WriteStatus = Written | LessData | Failed | Closed

  /** An open or closed connection, and the bytes it has taken since it was opened. */
  datatype Network = Network(open: bool, wire: seq<Byte>)

  /** A write with its aftermath: a failed one closes the connection, a short one does not. */
  function Send(net: Network, packet: seq<Byte>, o: Outcome): (Network, WriteStatus) {
    if !net.open then (net, Closed)
    else
      match o
      case Whole => (net.(wire := net.wire + packet), Written)
      case Short(n) =>
        if n < |packet| then (net.(wire := net.wire + packet[..n]), LessData)
        else (net.(wire := net.wire + packet), Written)
      case Broken => (net.(open := false), Failed)
  }

  function Joined(packets: seq<seq<Byte>>): seq<Byte> {
    if packets == [] then [] else Joined(packets[..|packets| - 1]) + packets[|packets| - 1]
  }

  lemma JoinedSnoc(packets: seq<seq<Byte>>, p: seq<Byte>)
    ensures Joined(packets + [p]) == Joined(packets) + p
  {
    assert (packets + [p])[..|packets|] == packets;
  }

  lemma {:induction false} JoinedCons(packets: seq<seq<Byte>>)
    requires packets != []
    ensures Joined(packets) == packets[0] + Joined(packets[1..])
  {
    var n := |packets| - 1;
    if n > 0 {
      JoinedCons(packets[..n]);
      assert packets[1..][..n - 1] == packets[..n][1..] && packets[1..][n - 1] == packets[n];
    } else {
      assert packets[..0] == [] && packets[1..] == [];
      assert [] + packets[0] == packets[0] + [];
    }
  }

  /** A packet from its first byte to its last. */
  ghost predicate IsFrame(p: seq<Byte>) {
    exists k: nat :: FrameWith(p, 0, k, |p|)
  }

  ghost predicate AllFrames(packets: seq<seq<Byte>>) {
    forall i :: 0 <= i < |packets| ==> IsFrame(packets[i])
  }

  lemma FrameThere(p: seq<Byte>, rest: seq<Byte>, k: nat)
    requires FrameWith(p, 0, k, |p|)
    ensures FrameWith(p + rest, 0, k, |p|)
  {
    hide Complete, RemainValue;
    assert (p + rest)[1..1 + k] == p[1..1 + k];
  }

  /** No packet begins another one, so the first packet of a stream is decided by its bytes. */
  lemma FirstFrame(p: seq<Byte>, rest: seq<Byte>, q: seq<Byte>, more: seq<Byte>)
    requires IsFrame(p) && IsFrame(q) && p + rest == q + more
    ensures p == q && rest == more
  {
    hide FrameWith;
    var k: nat :| FrameWith(p, 0, k, |p|);
    var l: nat :| FrameWith(q, 0, l, |q|);
    FrameThere(p, rest, k);
    FrameThere(q, more, l);
    FrameOnce(p + rest, 0, k, |p|, l, |q|);
    assert p == (p + rest)[..|p|] && q == (q + more)[..|q|];
    assert rest == (p + rest)[|p|..] && more == (q + more)[|q|..];
  }

  /** A stream of packets can be cut into packets in one way only. */
  lemma {:induction false} FramesDecode(ps: seq<seq<Byte>>, qs: seq<seq<Byte>>)
    requires AllFrames(ps) && AllFrames(qs) && Joined(ps) == Joined(qs)
    ensures ps == qs
  {
    hide IsFrame, Joined;
    if ps == [] {
      if qs != [] { NotEmpty(qs); }
    } else if qs == [] {
      NotEmpty(ps);
    } else {
      JoinedCons(ps);
      JoinedCons(qs);
      FirstFrame(ps[0], Joined(ps[1..]), qs[0], Joined(qs[1..]));
      FramesDecode(ps[1..], qs[1..]);
      assert ps == [ps[0]] + ps[1..] && qs == [qs[0]] + qs[1..];
    }
  }

  lemma NotEmpty(ps: seq<seq<Byte>>)
    requires ps != [] && IsFrame(ps[0])
    ensures Joined(ps) != Joined([])
  {
    JoinedCons(ps);
    var k: nat :| FrameWith(ps[0], 0, k, |ps[0]|);
    hide FrameWith, Complete;
    HeaderThere(ps[0], 0, k, |ps[0]|);
    assert |Joined(ps)| >= |ps[0]| >= 1 && Joined([]) == [];
  }

  lemma PacketIsFrame(m: Message)
    requires Fits(m)
    ensures IsFrame(Packet(m))
  {
    hide Packet, Fits, FrameWith, Readable, Read;
    var p := Packet(m);
    assert p[0..] == p + [];
    SentIsReceived(p, 0, m, []);
    var k: nat :| ReceivedWith(p, 0, k, m, |p|);
  }

  /** _core_mqtt_puback_send */
  function AckPacket(id: nat): seq<Byte>
    requires id < 0x1_0000
  {
    [0x40, 2] + Two(id)
  }

  lemma AckIsFrame(id: nat)
    requires id < 0x1_0000
    ensures IsFrame(AckPacket(id))
  {
    var p := AckPacket(id);
    assert p[1..2] == [2] && [2][1..] == [];
    assert RemainValue([2]) == 2;
    assert FrameWith(p, 0, 1, |p|);
  }

  /** The stream is made of whole packets. */
  ghost predicate Framed(wire: seq<Byte>) {
    exists packets: seq<seq<Byte>> :: AllFrames(packets) && wire == Joined(packets)
  }

  lemma FramedEmpty()
    ensures Framed([])
  {
    var none: seq<seq<Byte>> := [];
    assert AllFrames(none) && Joined(none) == [];
  }

  /** One more packet that is not written in part. */
  lemma SendKeepsFramed(net: Network, packet: seq<Byte>, o: Outcome)
    requires Framed(net.wire) && IsFrame(packet) && (o.Short? ==> o.n == 0)
    ensures Framed(Send(net, packet, o).0.wire)
  {
    hide IsFrame, Joined;
    var packets :| AllFrames(packets) && net.wire == Joined(packets);
    JoinedSnoc(packets, packet);
    assert AllFrames(packets + [packet]);
    assert packet[..0] == [] && net.wire + [] == net.wire;
  }

  /** A packet of which one byte was taken leaves the connection open, and the next packet is then lost in it: the
      stream cannot be cut into packets. */
  lemma ShortWriteMisframes()
    ensures var p := Packet(Message([0x2F], [], 0, 0));
            var (net, status) := Send(Network(true, []), p, Short(1));
            net.open && status == LessData && !Framed(Send(net, p, Whole).0.wire)
  {
    var p := Packet(Message([0x2F], [], 0, 0));
    SmallPacket();
    var wire := [0x30 as Byte] + p;
    assert Send(Network(true, []), p, Short(1)).0.wire == [0x30 as Byte];
    forall packets: seq<seq<Byte>> | AllFrames(packets) ensures wire != Joined(packets) {
      if wire == Joined(packets) { FirstTooLong(packets); }
    }
  }

  lemma SmallPacket()
    ensures Packet(Message([0x2F], [], 0, 0)) == [0x30, 3, 0, 1, 0x2F]
  {
    assert Two(1) == [0, 1];
    assert Body(Message([0x2F], [], 0, 0)) == [0, 1, 0x2F];
  }

  /** The second byte announces 48 more. */
  lemma FirstTooLong(packets: seq<seq<Byte>>)
    requires AllFrames(packets)
    ensures Joined(packets) != [0x30, 0x30, 3, 0, 1, 0x2F]
  {
    var wire: seq<Byte> := [0x30, 0x30, 3, 0, 1, 0x2F];
    if packets != [] && Joined(packets) == wire {
      var p := packets[0];
      var k: nat :| FrameWith(p, 0, k, |p|);
      JoinedCons(packets);
      FrameThere(p, Joined(packets[1..]), k);
      assert FrameWith(wire, 0, k, |p|) && Complete(wire[1..2]) by { assert wire[1..2] == [0x30]; }
      hide FrameWith, Complete, RemainValue, Joined;
      HeaderThere(wire, 0, k, |p|);
      OneByteField(wire, k, |p|);
    }
  }

  lemma OneByteField(wire: seq<Byte>, k: nat, next: nat)
    requires |wire| >= 2 && wire[1] == 0x30 && FrameWith(wire, 0, k, next)
    ensures next >= 50
  {
    assert wire[1..2] == [0x30] && Complete(wire[1..2]);
    FieldEnds(wire, 1, k, 1);
    assert RemainValue([0x30]) == 0x30 by { assert [0x30 as Byte][1..] == []; }
  }
}
