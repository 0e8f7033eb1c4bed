/** The lease that one IDE connection holds on the device, with its heartbeat timeout. */
module IdeLease {
  import opened Buffers
  import opened Json
  import opened Options

  const HEARTBEAT_TIMEOUT_MS := 120000

  /** `stamp` is last_heartbeat_ms. */
  datatype Lease = Lease(connected: bool, client: string, info: string, stamp: int)

  const FREE := Lease(false, "", "", 0)

  /** One atomic step under the lock. The clock reading of a request is taken before the lock is, so readings need not
      increase from step to step. */
  datatype Event =
    | Connect(client: string, info: string, now: int)
    | Disconnect(client: string)
    | Heartbeat(client: string, now: int)
    | Check(now: int)
    | Clear

  function Owner(s: Lease): Option<string> {
    if s.connected then Some(s.client) else None
  }

  predicate Expired(s: Lease, now: int) {
    now - s.stamp > HEARTBEAT_TIMEOUT_MS
  }

  /** A connect is accepted when the lease is free, already the client's, or expired; a heartbeat only from the owner. */
  predicate Accepts(s: Lease, e: Event) {
    match e
    case Connect(client, _, now) => !s.connected || s.client == client || Expired(s, now)
    case Heartbeat(client, _) => s.connected && s.client == client
    case _ => false
  }

  function Step(s: Lease, e: Event): Lease {
    match e
    case Connect(client, info, now) => if Accepts(s, e) then Lease(true, client, info, now) else s
    case Disconnect(client) => if s.connected && s.client == client then FREE else s
    case Heartbeat(_, now) => if Accepts(s, e) then s.(stamp := now) else s
    case Check(now) => if s.connected && Expired(s, now) then FREE else s
    case Clear => FREE
  }

  // ----- names -----

  /** Room for a name and its terminator. */
  const NAME_ROOM := 128

  /** As much of a name as there is room for. */
  function Bounded(name: string): (r: string)
    ensures |r| < NAME_ROOM
  {
    if |name| < NAME_ROOM then name else name[..NAME_ROOM - 1]
  }

  /** The client that a request speaks for: the text found for its name between quotes, copied within the room. */
  function ClientName(found: Option<string>): string {
    match found
    case Some(text) => Bounded(Unescape(text))
    case None => "unknown"
  }

  /** Two names are one client exactly when they agree in their first 127 characters. */
  lemma NamesCollide(u: string, v: string)
    ensures ClientName(Some(Escape(u))) == ClientName(Some(Escape(v))) <==>
      u == v || (|u| >= 127 && |v| >= 127 && u[..127] == v[..127])
  {
    hide Escape, Unescape, Bounded;
    UnescapeEscape(u);
    UnescapeEscape(v);
    SameBounded(u, v);
  }

  /** A name is what the escaped text stands for, cut after 127 characters. */
  lemma NameIsHead(u: string)
    ensures ClientName(Some(Escape(u))) == if |u| <= 127 then u else u[..127]
  {
    hide Escape, Unescape;
    UnescapeEscape(u);
  }

  lemma SameBounded(u: string, v: string)
    ensures Bounded(u) == Bounded(v) <==>
      u == v || (|u| >= NAME_ROOM - 1 && |v| >= NAME_ROOM - 1 && u[..NAME_ROOM - 1] == v[..NAME_ROOM - 1])
  {
    BoundedHead(u);
    BoundedHead(v);
    hide Bounded;
    if |u| < NAME_ROOM - 1 && Bounded(u) == Bounded(v) { assert |Bounded(v)| < NAME_ROOM - 1; }
  }

  lemma BoundedHead(u: string)
    ensures |u| < NAME_ROOM - 1 ==> Bounded(u) == u
    ensures |u| >= NAME_ROOM - 1 ==> Bounded(u) == u[..NAME_ROOM - 1] && |Bounded(u)| == NAME_ROOM - 1
  {
    if |u| == NAME_ROOM - 1 { assert u[..|u|] == u; }
  }

  /** Two different names of 128 characters that are one client, and a request without a name that is taken for the
      client called "unknown". */
  lemma NamesFail(head: string)
    requires |head| == NAME_ROOM - 1
    ensures head + "1" != head + "2"
    ensures ClientName(Some(Escape(head + "1"))) == ClientName(Some(Escape(head + "2")))
    ensures ClientName(None) == ClientName(Some(Escape("unknown")))
  {
    hide ClientName, Escape;
    var u, v := head + "1", head + "2";
    assert u[|head|] != v[|head|] && u[..|head|] == head == v[..|head|];
    NamesCollide(u, v);
    UnknownName();
  }

  lemma UnknownName()
    ensures ClientName(Some(Escape("unknown"))) == "unknown" == ClientName(None)
  {
    hide Escape, Unescape;
    UnescapeEscape("unknown");
  }

  /** A buffer as a C string. */
  function UpToNul(b: string): string {
    if b == "" || b[0] == '\0' then "" else [b[0]] + UpToNul(b[1..])
  }

  lemma {:induction false} UpToTerminator(s: string, rest: string)
    requires '\0' !in s
    ensures UpToNul(s + ['\0'] + rest) == s
  {
    var b := s + ['\0'] + rest;
    if s != "" {
      UpToTerminator(s[1..], rest);
      assert b[1..] == s[1..] + ['\0'] + rest;
    }
  }

  lemma {:induction false} NoNul(text: string)
    requires '\0' !in text
    ensures '\0' !in Unescape(text)
  {
    if text != "" {
      var n := if text[0] == '\\' && |text| > 1 then 2 else 1;
      UnescapeFront(text, n);
      NoNul(text[n..]);
      hide Unescape;
    }
  }

  method ReadClientName(found: Option<string>) returns (name: string)
    requires found.Some? ==> '\0' !in found.value
    ensures name == ClientName(found)
  {
    hide Unescape, UpToNul, Splice;
    var buf := new char[NAME_ROOM](i requires 0 <= i < NAME_ROOM => if i < 7 then "unknown"[i] else '\0');
    ghost var b := buf[..];
    if found.Some? {
      var ok := CopyStringValue(found.value, 0, |found.value|, buf, NAME_ROOM);
      assert found.value[0..|found.value|] == found.value;
      NoNul(found.value);
      CopiedName(b, Unescape(found.value));
    } else {
      UpToTerminator("unknown", b[8..]);
      assert b == "unknown" + ['\0'] + b[8..];
    }
    name := AsText(buf);
  }

  lemma CopiedName(b: string, u: string)
    requires |b| == NAME_ROOM && b[NAME_ROOM - 1] == '\0' && '\0' !in u
    ensures |u| < NAME_ROOM ==> UpToNul(Splice(b, 0, u + ['\0'])) == Bounded(u)
    ensures |u| >= NAME_ROOM ==> UpToNul(Splice(b, 0, u[..NAME_ROOM - 1])) == Bounded(u)
  {
    hide UpToNul;
    var n := NAME_ROOM - 1;
    if |u| < NAME_ROOM {
      UpToTerminator(u, b[|u| + 1..]);
      assert Splice(b, 0, u + ['\0']) == u + ['\0'] + b[|u| + 1..];
    } else {
      UpToTerminator(u[..n], "");
      assert Splice(b, 0, u[..n]) == u[..n] + ['\0'] + "";
    }
  }

  method AsText(buf: array<char>) returns (s: string)
    ensures s == UpToNul(buf[..])
  {
    s := "";
    var i := 0;
    while i < buf.Length && buf[i] != '\0'
      invariant 0 <= i <= buf.Length && UpToNul(buf[..]) == s + UpToNul(buf[i..])
    {
      ghost var rest := UpToNul(buf[i + 1..]);
      assert buf[i..][1..] == buf[i + 1..] && s + [buf[i]] + rest == s + ([buf[i]] + rest);
      s := s + [buf[i]];
      i := i + 1;
    }
    assert UpToNul(buf[i..]) == "" && s + "" == s;
  }

  // ----- the manager -----

  class Manager {
    var connected: bool
    var currentClientId: string
    var currentClientInfo: string
    var lastHeartbeatMs: int

    ghost function State(): Lease
      reads this
    {
      Lease(connected, currentClientId, currentClientInfo, lastHeartbeatMs)
    }

    constructor ()
      ensures State() == FREE
    {
      connected, currentClientId, currentClientInfo, lastHeartbeatMs := false, "", "", 0;
    }

    method Unlock()
      modifies this
      ensures State() == FREE
    {
      connected := false;
      currentClientId := "";
      currentClientInfo := "";
      lastHeartbeatMs := 0;
    }

    /** ide_connection_manager_handle_request_connect */
    method RequestConnect(found: Option<string>, info: string, now: int) returns (success: bool)
      requires found.Some? ==> '\0' !in found.value
      modifies this
      ensures State() == Step(old(State()), Connect(ClientName(found), info, now))
      ensures success <==> !old(connected) || old(currentClientId) == ClientName(found)
                           || now > old(lastHeartbeatMs) + 120000
    {
      var client := ReadClientName(found);
      if !connected {
        connected := true;
        lastHeartbeatMs := now;
        currentClientId := client;
        currentClientInfo := info;
        success := true;
      } else if currentClientId == client {
        lastHeartbeatMs := now;
        currentClientInfo := info;
        success := true;
      } else if now - lastHeartbeatMs > HEARTBEAT_TIMEOUT_MS {
        connected := true;
        lastHeartbeatMs := now;
        currentClientId := client;
        currentClientInfo := info;
        success := true;
      } else {
        success := false;
      }
    }

    /** ide_connection_manager_handle_disconnect */
    method HandleDisconnect(found: Option<string>) returns (success: bool, released: bool)
      requires found.Some? ==> '\0' !in found.value
      modifies this
      ensures State() == Step(old(State()), Disconnect(ClientName(found)))
      ensures success <==> Owner(old(State())) == None || Owner(old(State())) == Some(ClientName(found))
      ensures released <==> Owner(old(State())) == Some(ClientName(found))
    {
      var client := ReadClientName(found);
      released := false;
      if !connected {
        success := true;
      } else if currentClientId != client {
        success := false;
      } else {
        Unlock();
        success, released := true, true;
      }
    }

    /** ide_connection_manager_handle_heartbeat */
    method HandleHeartbeat(found: Option<string>, now: int) returns (success: bool)
      requires found.Some? ==> '\0' !in found.value
      modifies this
      ensures State() == Step(old(State()), Heartbeat(ClientName(found), now))
      ensures success <==> old(connected) && old(currentClientId) == ClientName(found)
    {
      var client := ReadClientName(found);
      if !connected || currentClientId != client {
        success := false;
      } else {
        lastHeartbeatMs := now;
        success := true;
      }
    }

    /** One round of the heartbeat thread. */
    method CheckTimeout(now: int) returns (released: bool)
      modifies this
      ensures State() == Step(old(State()), Check(now))
      ensures released <==> old(connected) && now > old(lastHeartbeatMs) + 120000
    {
      released := false;
      if connected && now - lastHeartbeatMs > HEARTBEAT_TIMEOUT_MS {
        Unlock();
        released := true;
      }
    }

    method ClearCloudState()
      modifies this
      ensures State() == Step(old(State()), Clear)
    {
      Unlock();
    }
  }

  // ----- runs -----

  ghost predicate IsRun(states: seq<Lease>, events: seq<Event>) {
    && |states| == |events| + 1 && states[0] == FREE
    && forall i :: 0 <= i < |events| ==> states[i + 1] == Step(states[i], events[i])
  }

  /** A connect that obtains the lease: it is free, already the client's, or its stamp is more than 120000 back. */
  ghost predicate Obtains(s: Lease, e: Event) {
    e.Connect? && (!s.connected || s.client == e.client || e.now > s.stamp + 120000)
  }

  /** What the client of connect j has told since: its latest description, and its latest reading. */
  ghost function Told(events: seq<Event>, j: nat, k: nat): (s: Lease)
    requires j < k <= |events| && events[j].Connect?
    ensures s.connected && s.client == events[j].client
  {
    var client := events[j].client;
    if k == j + 1 then Lease(true, client, events[j].info, events[j].now)
    else
      match events[k - 1]
      case Connect(other, info, now) =>
        if other == client then Lease(true, client, info, now) else Told(events, j, k - 1)
      case Heartbeat(other, now) =>
        if other == client then Told(events, j, k - 1).(stamp := now) else Told(events, j, k - 1)
      case _ => Told(events, j, k - 1)
  }

  /** Event i takes the lease from the client of connect j: that client's disconnect, a clear, or a check or another
      client's connect more than 120000 after the client's latest reading. */
  ghost predicate Takes(events: seq<Event>, j: nat, i: nat)
    requires j < i < |events| && events[j].Connect?
  {
    match events[i]
    case Disconnect(client) => client == events[j].client
    case Clear => true
    case Check(now) => now > Told(events, j, i).stamp + 120000
    case Connect(other, _, now) => other != events[j].client && now > Told(events, j, i).stamp + 120000
    case Heartbeat(_, _) => false
  }

  /** Whoever obtains the lease holds it, with its own latest reading as the stamp, until an event takes it; other
      clients' requests change nothing. */
  lemma {:induction false} LeaseHeld(states: seq<Lease>, events: seq<Event>, j: nat, k: nat)
    requires IsRun(states, events) && j < k <= |events| && Obtains(states[j], events[j])
    requires forall i :: j < i < k ==> !Takes(events, j, i)
    ensures states[k] == Told(events, j, k)
  {
    if k > j + 1 {
      LeaseHeld(states, events, j, k - 1);
      assert !Takes(events, j, k - 1);
    }
  }

  /** The event that takes the lease gives it to the client that connects, and otherwise frees it. */
  lemma LeaseTaken(states: seq<Lease>, events: seq<Event>, j: nat, i: nat)
    requires IsRun(states, events) && j < i < |events| && Obtains(states[j], events[j])
    requires (forall m :: j < m < i ==> !Takes(events, j, m)) && Takes(events, j, i)
    ensures states[i + 1] ==
            match events[i]
            case Connect(client, info, now) => Lease(true, client, info, now)
            case _ => Lease(false, "", "", 0)
  {
    hide Told;
    LeaseHeld(states, events, j, i);
  }

  /** A free lease stays free until a client connects. */
  lemma FreeUntilConnect(states: seq<Lease>, events: seq<Event>, i: nat)
    requires IsRun(states, events) && i < |events| && !states[i].connected
    ensures if events[i].Connect? then Obtains(states[i], events[i]) else !states[i + 1].connected
  {
  }

  /** Event j is the latest accepted connect or heartbeat before state k, it came from the owner, and the owner has held
      the lease since. */
  ghost predicate LatestAccepted(states: seq<Lease>, events: seq<Event>, j: nat, k: nat)
    requires |states| == |events| + 1 && j < k <= |events|
  {
    && Accepts(states[j], events[j]) && (events[j].Connect? || events[j].Heartbeat?)
    && Owner(states[k]) == Some(events[j].client) && states[k].stamp == events[j].now
    && (forall i :: j < i < k ==> !Accepts(states[i], events[i]))
    && (forall i :: j < i <= k ==> Owner(states[i]) == Owner(states[k]))
  }

  /** In every state that is held, last_heartbeat_ms is the stamp of the owner's latest accepted connect or heartbeat. */
  lemma {:induction false} StampIsLatest(states: seq<Lease>, events: seq<Event>, k: nat) returns (j: nat)
    requires IsRun(states, events) && k <= |events| && states[k].connected
    ensures j < k && LatestAccepted(states, events, j, k)
  {
    if Accepts(states[k - 1], events[k - 1]) {
      j := k - 1;
    } else {
      j := StampIsLatest(states, events, k - 1);
    }
  }

  /** The three ways for the owner to lose the lease. */
  predicate Releases(s: Lease, e: Event) {
    match e
    case Disconnect(client) => Owner(s) == Some(client)
    case Clear => true
    case Check(now) => Expired(s, now)
    case Connect(_, _, now) => Expired(s, now)
    case Heartbeat(_, _) => false
  }

  lemma OwnerKeeps(s: Lease, e: Event)
    requires s.connected && Owner(Step(s, e)) != Owner(s)
    ensures Releases(s, e)
  {
  }

  /** Between two different owners there is a step that releases the first one's lease: its own disconnect, a clear, or
      a step whose clock reading exceeds the stamp of its latest accepted connect or heartbeat by more than 120000. */
  lemma {:induction false} OwnershipMoves(states: seq<Lease>, events: seq<Event>, i: nat, k: nat)
    returns (release: nat, latest: nat)
    requires IsRun(states, events) && i < k <= |events|
    requires states[i].connected && Owner(states[k]) != Owner(states[i])
    ensures i <= release < k && Owner(states[release]) == Owner(states[i]) && Releases(states[release], events[release])
    ensures latest < release && LatestAccepted(states, events, latest, release)
    ensures events[release].Check? || events[release].Connect? ==>
      events[release].now - events[latest].now > HEARTBEAT_TIMEOUT_MS
    decreases k - i
  {
    if Owner(states[i + 1]) != Owner(states[i]) {
      OwnerKeeps(states[i], events[i]);
      release := i;
      latest := StampIsLatest(states, events, i);
    } else {
      release, latest := OwnershipMoves(states, events, i + 1, k);
    }
  }

  /** An owner that is neither disconnected nor cleared and whose stamp is never more than 120000 behind a step's clock
      keeps the lease. */
  lemma {:induction false} HeartbeatKeepsLease(states: seq<Lease>, events: seq<Event>, i: nat, k: nat)
    requires IsRun(states, events) && i <= k <= |events| && states[i].connected
    requires forall j :: i <= j < k ==>
      events[j] != Clear && events[j] != Disconnect(states[i].client)
      && (events[j].Check? || events[j].Connect? ==> !Expired(states[j], events[j].now))
    ensures Owner(states[k]) == Owner(states[i])
  {
    if Owner(states[k]) != Owner(states[i]) {
      var release, latest := OwnershipMoves(states, events, i, k);
      assert false;
    }
  }
}
