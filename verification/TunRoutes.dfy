/**
 The TUN bridge's routing index. Two tasks and the session set-up share it under one lock;
 each method is one critical section, and the index must agree with the history of them.
 */
module TunRoutes {
  import opened Octets
  import opened Packets
  import opened Session
  import opened Wrappers

  datatype Event =
    | Joined(session: u64)
    | Left(session: u64)
    | Sent(session: u64, source: Ipv4, connectionId: u32)

  // ---- The reference: what the history says ---------------------------------

  /** The session's last coming or going was a coming. */
  ghost predicate Registered(history: seq<Event>, s: u64) {
    history != [] &&
    var e, earlier := history[|history| - 1], history[..|history| - 1];
    if e == Joined(s) then true else if e == Left(s) then false else Registered(earlier, s)
  }

  /** Event `i` is a packet from `ip` for a session registered at that time. */
  ghost predicate Claims(history: seq<Event>, ip: Ipv4, i: nat) {
    i < |history| && history[i].Sent? && history[i].source == ip && Registered(history[..i], history[i].session)
  }

  /** Event `i` is the latest claim on `ip`, by session `s`, which has not left since. */
  ghost predicate RoutedBy(history: seq<Event>, ip: Ipv4, s: u64, i: nat) {
    && Claims(history, ip, i) && history[i].session == s
    && forall j | i < j < |history| :: !Claims(history, ip, j) && history[j] != Left(s)
  }

  ghost predicate Routes(history: seq<Event>, ip: Ipv4, s: u64) {
    exists i: nat :: RoutedBy(history, ip, s, i)
  }

  /** The connection id of the session's last packet in this registration, 1 before any. */
  ghost function ConnectionOf(history: seq<Event>, s: u64): (r: u32) {
    if history == [] then 1
    else
      var e, earlier := history[|history| - 1], history[..|history| - 1];
      if e == Joined(s) then 1
      else if e.Sent? && e.session == s then e.connectionId
      else ConnectionOf(earlier, s)
  }

  lemma OneMoreEvent(history: seq<Event>, e: Event, ip: Ipv4, i: nat)
    ensures i < |history| ==> (Claims(history + [e], ip, i) <==> Claims(history, ip, i))
    ensures Claims(history + [e], ip, |history|) <==> e.Sent? && e.source == ip && Registered(history, e.session)
  {
    var longer := history + [e];
    assert longer[..|history|] == history;
    if i < |history| {
      assert longer[..i] == history[..i];
    }
  }

  /** How one event changes the routes. */
  lemma RoutesAfter(history: seq<Event>, e: Event, ip: Ipv4, s: u64)
    ensures Routes(history + [e], ip, s) <==>
            if e.Sent? && e.source == ip && Registered(history, e.session) then s == e.session
            else Routes(history, ip, s) && e != Left(s)
  {
    var longer, n := history + [e], |history|;
    forall i: nat
      ensures i < n ==> (Claims(longer, ip, i) <==> Claims(history, ip, i))
      ensures Claims(longer, ip, n) <==> e.Sent? && e.source == ip && Registered(history, e.session)
    {
      OneMoreEvent(history, e, ip, i);
    }
    if Claims(longer, ip, n) {
      assert s == e.session ==> RoutedBy(longer, ip, s, n);
    } else {
      if Routes(history, ip, s) && e != Left(s) {
        var i: nat :| RoutedBy(history, ip, s, i);
        assert RoutedBy(longer, ip, s, i);
      }
      if Routes(longer, ip, s) {
        var i: nat :| RoutedBy(longer, ip, s, i);
        assert i < n && longer[n] != Left(s);
        assert forall j | i < j < n :: longer[j] == history[j];
        assert RoutedBy(history, ip, s, i);
      }
    }
  }

  /** At most one session has the route. */
  lemma RouteIsUnique(history: seq<Event>, ip: Ipv4, a: u64, b: u64)
    requires Routes(history, ip, a) && Routes(history, ip, b)
    ensures a == b
  {
  }

  /** A session with a route is registered. */
  lemma {:induction false} RoutedIsRegistered(history: seq<Event>, ip: Ipv4, s: u64)
    requires Routes(history, ip, s)
    ensures Registered(history, s)
  {
    var e, earlier := history[|history| - 1], history[..|history| - 1];
    assert history == earlier + [e];
    RoutesAfter(earlier, e, ip, s);
    if Routes(earlier, ip, s) {
      RoutedIsRegistered(earlier, ip, s);
    }
  }

  /** A session id that has never joined has no route. */
  lemma {:induction false} FreshIdHasNoRoute(history: seq<Event>, ip: Ipv4, s: u64)
    requires Joined(s) !in history
    ensures !Registered(history, s) && !Routes(history, ip, s)
  {
    if history != [] {
      FreshIdHasNoRoute(history[..|history| - 1], ip, s);
    }
    if Routes(history, ip, s) {
      RoutedIsRegistered(history, ip, s);
    }
  }

  /** Nor has it one when it joins for the first time. */
  lemma FirstJoinHasNoRoute(history: seq<Event>, ip: Ipv4, s: u64)
    requires Joined(s) !in history
    ensures !Routes(history + [Joined(s)], ip, s)
  {
    FreshIdHasNoRoute(history, ip, s);
    RoutesAfter(history, Joined(s), ip, s);
  }

  // ---- The bridge -----------------------------------------------------------

  /** `parse_ipv4_src_dst`. */
  function ParseSrcDst(p: seq<byte>): (r: Option<(Ipv4, Ipv4)>) {
    if |p| < 20 || Version(p) != 4 || HeaderLen(p) < 20 || |p| < HeaderLen(p) then None
    else if U16At(p, 2) < HeaderLen(p) || U16At(p, 2) > |p| then None
    else Some((p[12..16], p[16..20]))
  }

  /** Of every packet with an IPv4 header: the addresses read are its source and its destination, in that order. */
  lemma ParseSrcDstIff(f: Ipv4Fields, total: u16, body: seq<byte>)
    requires HasLayout(f)
    ensures var h := 20 + |f.options|;
            ParseSrcDst(Packet(f, total, body)) == if h <= total <= h + |body| then Some((f.src, f.dst)) else None
  {
    PacketFields(f, total, body);
  }

  /** Anything else is dropped: too short, another version, or a header length below 20. */
  lemma ParseSrcDstRejects(p: seq<byte>)
    requires |p| < 20 || p[0] / 16 != 4 || p[0] % 16 < 5 || |p| < p[0] % 16 * 4
    ensures ParseSrcDst(p) == None
  {
  }

  datatype Route = Route(connectionId: u32, nextServerSequence: u64)

  class TunBridgeState {
    var sessions: map<u64, Route>
    var ipToSession: map<Ipv4, u64>
    ghost var history: seq<Event>
    /** The frames made for each session since it last joined. */
    ghost var returned: map<u64, seq<Frame>>

    ghost predicate Valid()
      reads this
    {
      && (forall s: u64 :: s in sessions <==> Registered(history, s))
      && (forall ip: Ipv4, s: u64 :: ip in ipToSession && ipToSession[ip] == s <==> Routes(history, ip, s))
      && (forall s | s in sessions :: sessions[s].connectionId == ConnectionOf(history, s))
      && NumberedReturns(sessions, returned)
    }

    constructor ()
      ensures Valid() && history == []
    {
      sessions, ipToSession := map[], map[];
      history, returned := [], map[];
    }

    method RegisterSession(session: u64)
      requires Valid()
      modifies this
      ensures Valid() && history == old(history) + [Joined(session)]
      ensures returned == old(returned)[session := []]
    {
      Record(Joined(session));
      sessions := sessions[session := Route(1, 0)];
      returned := returned[session := []];
    }

    method UnregisterSession(session: u64)
      requires Valid()
      modifies this
      ensures Valid() && history == old(history) + [Left(session)]
      ensures returned == old(returned) - {session}
    {
      Record(Left(session));
      sessions := sessions - {session};
      ipToSession := map ip | ip in ipToSession && ipToSession[ip] != session :: ipToSession[ip];
      returned := returned - {session};
    }

    /** The writer task's step for one client packet; it goes to the device even if the session is gone. */
    method WriterStep(session: u64, connectionId: u32, payload: seq<byte>) returns (written: bool)
      requires Valid()
      modifies this
      ensures Valid() && returned == old(returned)
      ensures written <==> ParseSrcDst(payload).Some?
      ensures history == old(history) + if written then [Sent(session, ParseSrcDst(payload).value.0, connectionId)] else []
    {
      var parsed := ParseSrcDst(payload);
      if parsed.None? {
        return false;
      }
      var source := parsed.value.0;
      Record(Sent(session, source, connectionId));
      if session in sessions {
        sessions := sessions[session := sessions[session].(connectionId := connectionId)];
        ipToSession := ipToSession[source := session];
      }
      written := true;
    }

    /**
     The reader task's step for one packet from the device. `open` says whether the session's channel
     still has a receiver. A frame is made exactly when the destination has a route, for that session,
     on its connection, with the next number; a closed channel unregisters the session.
     */
    method ReaderStep(packet: seq<byte>, open: bool) returns (frame: Option<Frame>)
      requires Valid()
      modifies this
      ensures Valid()
      ensures frame.Some? <==> ParseSrcDst(packet).Some? && exists s :: old(Routes(history, ParseSrcDst(packet).value.1, s))
      ensures frame.None? ==> history == old(history) && returned == old(returned)
      ensures frame.Some? ==> forall s | old(Routes(history, ParseSrcDst(packet).value.1, s)) ::
                && s in old(returned)
                && frame.value == Frame(Header(ConnectionOf(old(history), s), |old(returned)[s]| % 0x1_0000_0000_0000_0000, 0), packet)
                && (if open then history == old(history) && returned == old(returned)[s := old(returned)[s] + [frame.value]]
                    else history == old(history) + [Left(s)] && returned == old(returned) - {s})
    {
      var parsed := ParseSrcDst(packet);
      if parsed.None? || parsed.value.1 !in ipToSession {
        return None;
      }
      var session := ipToSession[parsed.value.1];
      assert Routes(history, parsed.value.1, session);
      RoutedIsRegistered(history, parsed.value.1, session);
      forall s | Routes(history, parsed.value.1, s) ensures s == session {
        RouteIsUnique(history, parsed.value.1, s, session);
      }
      if session !in sessions {
        // The index never names a session that is not registered.
        assert false;
        return None;
      }
      var f := Advance(session, packet);
      if !open {
        UnregisterSession(session);
      }
      frame := Some(f);
    }

    /** Numbers a return frame for a registered session. */
    method Advance(session: u64, packet: seq<byte>) returns (frame: Frame)
      requires Valid() && session in sessions
      modifies this`sessions, this`returned
      ensures Valid() && session in old(returned)
      ensures frame == Frame(Header(ConnectionOf(history, session), |old(returned)[session]| % 0x1_0000_0000_0000_0000, 0), packet)
      ensures returned == old(returned)[session := old(returned)[session] + [frame]]
    {
      var route := sessions[session];
      frame := Frame(Header(route.connectionId, route.nextServerSequence, 0), packet);
      OneMoreFrame(route.nextServerSequence, returned[session], frame);
      sessions := sessions[session := route.(nextServerSequence := WrappingSucc(route.nextServerSequence))];
      returned := returned[session := returned[session] + [frame]];
    }

    /** Adds an event to the history and brings the reference up to date with it. */
    ghost method Record(e: Event)
      modifies this`history
      ensures history == old(history) + [e]
      ensures forall s: u64 :: Registered(history, s) <==> e == Joined(s) || (e != Left(s) && Registered(old(history), s))
      ensures forall ip: Ipv4, s: u64 :: Routes(history, ip, s) <==>
                if e.Sent? && e.source == ip && Registered(old(history), e.session) then s == e.session
                else Routes(old(history), ip, s) && e != Left(s)
      ensures forall s: u64 :: ConnectionOf(history, s) ==
                if e == Joined(s) then 1 else if e.Sent? && e.session == s then e.connectionId else ConnectionOf(old(history), s)
    {
      var before := history;
      history := history + [e];
      assert history[..|before|] == before;
      forall ip: Ipv4, s: u64
        ensures Routes(history, ip, s) <==>
                if e.Sent? && e.source == ip && Registered(before, e.session) then s == e.session
                else Routes(before, ip, s) && e != Left(s)
      {
        RoutesAfter(before, e, ip, s);
      }
    }
  }

  /** Return frames of each registered session carry 0, 1, 2, .. without gaps. */
  ghost predicate NumberedReturns(sessions: map<u64, Route>, returned: map<u64, seq<Frame>>) {
    && returned.Keys == sessions.Keys
    && forall s | s in sessions :: InSequence(sessions[s].nextServerSequence, returned[s])
  }

  ghost predicate InSequence(next: u64, frames: seq<Frame>) {
    && next == |frames| % 0x1_0000_0000_0000_0000
    && forall i | 0 <= i < |frames| :: frames[i].header.sequence == i % 0x1_0000_0000_0000_0000
  }

  lemma OneMoreFrame(next: u64, frames: seq<Frame>, f: Frame)
    requires InSequence(next, frames) && f.header.sequence == next
    ensures InSequence(WrappingSucc(next), frames + [f])
  {
    CountsOn(|frames|);
  }

  // ---- Where session ids come from ------------------------------------------

  class SessionRegistry {
    var nextSessionId: u64
    var sessionsByClient: map<string, u64>
    /** Every id ever issued, in order. */
    ghost var issued: seq<u64>

    ghost predicate Valid()
      reads this
    {
      && nextSessionId == |issued| % 0x1_0000_0000_0000_0000
      && (forall i | 0 <= i < |issued| :: issued[i] == i % 0x1_0000_0000_0000_0000)
      && (forall c | c in sessionsByClient :: sessionsByClient[c] in issued)
      && (|issued| <= 0x1_0000_0000_0000_0000 ==>
            forall c, d | c in sessionsByClient && d in sessionsByClient && c != d :: sessionsByClient[c] != sessionsByClient[d])
    }

    constructor ()
      ensures Valid() && issued == [] && sessionsByClient == map[]
    {
      nextSessionId, sessionsByClient := 0, map[];
      issued := [];
    }

    /** A known client keeps its id; a new one gets an id never issued before, until 2^64 have been. */
    method RegisterClient(client: string) returns (id: u64)
      requires Valid()
      modifies this
      ensures Valid() && sessionsByClient == old(sessionsByClient)[client := id]
      ensures client in old(sessionsByClient) ==> id == old(sessionsByClient)[client] && issued == old(issued)
      ensures client !in old(sessionsByClient) ==> issued == old(issued) + [id]
      ensures client !in old(sessionsByClient) && |old(issued)| < 0x1_0000_0000_0000_0000 ==> id !in old(issued)
    {
      if client in sessionsByClient {
        return sessionsByClient[client];
      }
      id := nextSessionId;
      CountsOn(|issued|);
      nextSessionId := WrappingSucc(nextSessionId);
      sessionsByClient := sessionsByClient[client := id];
      issued := issued + [id];
    }

    method UnregisterClient(client: string)
      requires Valid()
      modifies this`sessionsByClient
      ensures Valid() && sessionsByClient == old(sessionsByClient) - {client}
    {
      sessionsByClient := sessionsByClient - {client};
    }
  }

  // ---- Ids and routes together ----------------------------------------------

  /** The registry and the bridge as the connection handlers use them: only ids the registry issued ever join. */
  class TunServer {
    const registry: SessionRegistry
    const bridge: TunBridgeState

    ghost predicate Valid()
      reads this, registry, bridge
    {
      registry.Valid() && bridge.Valid() && OnlyIssued(bridge.history, registry.issued)
    }

    constructor ()
      ensures Valid() && fresh(registry) && fresh(bridge) && bridge.history == []
    {
      registry := new SessionRegistry();
      bridge := new TunBridgeState();
    }

    /** A handler asks for its client's session; a client not yet known gets an id that nothing is routed to. */
    method Assign(client: string) returns (id: u64)
      requires Valid()
      modifies registry
      ensures Valid() && id in registry.issued && registry.sessionsByClient == old(registry.sessionsByClient)[client := id]
      ensures client !in old(registry.sessionsByClient) && |old(registry.issued)| < 0x1_0000_0000_0000_0000
              ==> forall ip: Ipv4 :: !Routes(bridge.history, ip, id)
    {
      id := registry.RegisterClient(client);
      if client !in old(registry.sessionsByClient) && |old(registry.issued)| < 0x1_0000_0000_0000_0000 {
        forall ip: Ipv4 ensures !Routes(bridge.history, ip, id) {
          FreshIdHasNoRoute(bridge.history, ip, id);
        }
      }
    }

    /** A handler attaches the session it was assigned; the first time, it comes without routes. */
    method Attach(id: u64)
      requires Valid() && id in registry.issued
      modifies bridge
      ensures Valid() && bridge.history == old(bridge.history) + [Joined(id)]
      ensures Joined(id) !in old(bridge.history) ==> forall ip: Ipv4 :: !Routes(bridge.history, ip, id)
    {
      ghost var before := bridge.history;
      bridge.RegisterSession(id);
      if Joined(id) !in before {
        forall ip: Ipv4 ensures !Routes(bridge.history, ip, id) {
          FirstJoinHasNoRoute(before, ip, id);
        }
      }
    }

    /** The handler's connection is over: first the routes go, then the client. */
    method Detach(id: u64)
      requires Valid()
      modifies bridge
      ensures Valid() && bridge.history == old(bridge.history) + [Left(id)]
      ensures forall ip: Ipv4 :: !Routes(bridge.history, ip, id)
    {
      ghost var before := bridge.history;
      bridge.UnregisterSession(id);
      forall ip: Ipv4 ensures !Routes(bridge.history, ip, id) {
        RoutesAfter(before, Left(id), ip, id);
      }
    }

    method Release(client: string)
      requires Valid()
      modifies registry
      ensures Valid() && registry.sessionsByClient == old(registry.sessionsByClient) - {client}
    {
      registry.UnregisterClient(client);
    }

    method ClientPacket(id: u64, connectionId: u32, payload: seq<byte>) returns (written: bool)
      requires Valid()
      modifies bridge
      ensures Valid()
      ensures written ==> ParseSrcDst(payload).Some? && (id in bridge.sessions ==> Routes(bridge.history, ParseSrcDst(payload).value.0, id))
    {
      ghost var before := bridge.history;
      written := bridge.WriterStep(id, connectionId, payload);
      if written {
        var source := ParseSrcDst(payload).value.0;
        RoutesAfter(before, Sent(id, source, connectionId), source, id);
        assert bridge.history[..|before|] == before;
      }
    }

    method DevicePacket(packet: seq<byte>, open: bool) returns (frame: Option<Frame>)
      requires Valid()
      modifies bridge
      ensures Valid()
      ensures frame.Some? <==> ParseSrcDst(packet).Some? && exists s :: old(Routes(bridge.history, ParseSrcDst(packet).value.1, s))
    {
      frame := bridge.ReaderStep(packet, open);
    }
  }

  ghost predicate OnlyIssued(history: seq<Event>, issued: seq<u64>) {
    forall s: u64 | Joined(s) in history :: s in issued
  }
}
