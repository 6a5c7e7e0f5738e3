/**
 The receiving side of the client's packet loop. It feeds every frame it reads to the session and
 ends on the first error, so a copy that comes too late stops the whole tunnel.
 */
module PacketLoop {
  import opened Octets
  import opened Session
  import opened Wrappers

  datatype Loop = Loop(running: bool, session: Delivery)

  function Step(l: Loop, f: Frame): (r: Loop) {
    if !l.running then l else Loop(Ingest(l.session.rx, f).result.Ok?, Deliver(l.session, f))
  }

  /** The guards of the two error branches decide whether the loop goes on; an error changes nothing else. */
  lemma StepTaken(l: Loop, f: Frame)
    requires l.running
    ensures Step(l, f) == if f.header.connectionId == l.session.rx.connectionId && f.header.sequence >= l.session.rx.next
                          then Loop(true, Deliver(l.session, f)) else Loop(false, l.session)
  {
    assert l.session.delivered + [] == l.session.delivered;
  }

  /** The loop after its transports have returned `arrivals`. */
  function After(connectionId: u32, arrivals: seq<Frame>): (r: Loop) {
    if arrivals == [] then Loop(true, Receive(connectionId, []))
    else Step(After(connectionId, arrivals[..|arrivals| - 1]), arrivals[|arrivals| - 1])
  }

  lemma OneMoreFrame(connectionId: u32, arrivals: seq<Frame>, f: Frame)
    ensures After(connectionId, arrivals + [f]) == Step(After(connectionId, arrivals), f)
  {
    assert (arrivals + [f])[..|arrivals|] == arrivals;
  }

  lemma {:induction false} StoppedStays(connectionId: u32, arrivals: seq<Frame>, i: nat)
    requires i <= |arrivals| && !After(connectionId, arrivals[..i]).running
    ensures After(connectionId, arrivals) == After(connectionId, arrivals[..i])
  {
    var n := |arrivals| - 1;
    if i <= n {
      assert arrivals[..n][..i] == arrivals[..i];
      StoppedStays(connectionId, arrivals[..n], i);
    } else {
      assert arrivals[..i] == arrivals;
    }
  }

  /** `run_linux_packet_loop`, as far as it receives: returns what went to the device and whether the loop goes on. */
  method RunPacketLoop(connectionId: u32, arrivals: seq<Frame>) returns (delivered: seq<Frame>, running: bool)
    ensures delivered == After(connectionId, arrivals).session.delivered
    ensures running == After(connectionId, arrivals).running
  {
    var state := new SessionState(connectionId);
    delivered, running := [], true;
    var i := 0;
    ghost var l := After(connectionId, arrivals[..0]);
    while running && i < |arrivals|
      invariant 0 <= i <= |arrivals| && l == After(connectionId, arrivals[..i])
      invariant running == l.running && state.Receiving() == l.session.rx && delivered == l.session.delivered
    {
      assert l == Loop(true, Delivery(state.Receiving(), delivered));
      OneMoreTurn(connectionId, arrivals, i);
      l := Step(l, arrivals[i]);
      delivered, running := Turn(state, arrivals[i], delivered);
      i := i + 1;
    }
    LoopEnds(connectionId, arrivals, i);
  }

  lemma OneMoreTurn(connectionId: u32, arrivals: seq<Frame>, i: nat)
    requires i < |arrivals|
    ensures After(connectionId, arrivals[..i + 1]) == Step(After(connectionId, arrivals[..i]), arrivals[i])
  {
    OneMoreFrame(connectionId, arrivals[..i], arrivals[i]);
    assert arrivals[..i + 1] == arrivals[..i] + [arrivals[i]];
  }

  lemma LoopEnds(connectionId: u32, arrivals: seq<Frame>, i: nat)
    requires i <= |arrivals| && (i == |arrivals| || !After(connectionId, arrivals[..i]).running)
    ensures After(connectionId, arrivals) == After(connectionId, arrivals[..i])
  {
    if i == |arrivals| {
      assert arrivals[..i] == arrivals;
    } else {
      StoppedStays(connectionId, arrivals, i);
    }
  }

  /** One frame: what becomes ready goes to the device, an error ends the loop. */
  method Turn(state: SessionState, frame: Frame, before: seq<Frame>) returns (delivered: seq<Frame>, running: bool)
    modifies state`nextRxSequence, state`reorderBuffer
    ensures Loop(running, Delivery(state.Receiving(), delivered))
            == Step(Loop(true, Delivery(old(state.Receiving()), before)), frame)
  {
    var ready := state.IngestInbound(frame);
    running := ready.Ok?;
    delivered := before + if running then ready.value else [];
  }

  // ---- When the loop goes on ------------------------------------------------

  /** Arrival `i` is on the connection and not behind what has been handed up. */
  ghost predicate Welcome(connectionId: u32, arrivals: seq<Frame>, i: nat)
    requires i < |arrivals|
  {
    && arrivals[i].header.connectionId == connectionId
    && arrivals[i].header.sequence >= Receive(connectionId, arrivals[..i]).rx.next
  }

  lemma {:induction false} ConnectionIsKept(connectionId: u32, arrivals: seq<Frame>)
    ensures Receive(connectionId, arrivals).rx.connectionId == connectionId
  {
    if arrivals != [] {
      ConnectionIsKept(connectionId, arrivals[..|arrivals| - 1]);
    }
  }

  lemma StepIs(connectionId: u32, earlier: seq<Frame>, f: Frame)
    requires After(connectionId, earlier) == Loop(true, Receive(connectionId, earlier))
    ensures After(connectionId, earlier + [f])
            == if f.header.connectionId == connectionId && f.header.sequence >= Receive(connectionId, earlier).rx.next
               then Loop(true, Receive(connectionId, earlier + [f])) else Loop(false, Receive(connectionId, earlier))
  {
    ConnectionIsKept(connectionId, earlier);
    OneMoreFrame(connectionId, earlier, f);
    ReceiveOneMore(connectionId, earlier, f);
    StepTaken(After(connectionId, earlier), f);
  }

  lemma {:induction false} WelcomeGoesOn(connectionId: u32, arrivals: seq<Frame>, k: nat)
    requires k <= |arrivals| && forall i | 0 <= i < k :: Welcome(connectionId, arrivals, i)
    ensures After(connectionId, arrivals[..k]) == Loop(true, Receive(connectionId, arrivals[..k]))
  {
    if k > 0 {
      WelcomeGoesOn(connectionId, arrivals, k - 1);
      assert Welcome(connectionId, arrivals, k - 1);
      assert arrivals[..k] == arrivals[..k - 1] + [arrivals[k - 1]];
      StepIs(connectionId, arrivals[..k - 1], arrivals[k - 1]);
    }
  }

  lemma UnwelcomeStops(connectionId: u32, arrivals: seq<Frame>, k: nat)
    requires k < |arrivals| && After(connectionId, arrivals[..k]) == Loop(true, Receive(connectionId, arrivals[..k]))
    requires !Welcome(connectionId, arrivals, k)
    ensures After(connectionId, arrivals) == Loop(false, Receive(connectionId, arrivals[..k]))
  {
    assert arrivals[..k + 1] == arrivals[..k] + [arrivals[k]];
    StepIs(connectionId, arrivals[..k], arrivals[k]);
    StoppedStays(connectionId, arrivals, k + 1);
  }

  /** The loop takes arrivals up to the first unwelcome one, `k`, and is where ingesting those leads. */
  lemma LoopIsReceive(connectionId: u32, arrivals: seq<Frame>) returns (k: nat)
    ensures k <= |arrivals| && After(connectionId, arrivals).session == Receive(connectionId, arrivals[..k])
    ensures After(connectionId, arrivals).running <==> k == |arrivals|
    ensures forall i | 0 <= i < k :: Welcome(connectionId, arrivals, i)
    ensures k < |arrivals| ==> !Welcome(connectionId, arrivals, k)
  {
    k := 0;
    while k < |arrivals| && Welcome(connectionId, arrivals, k)
      invariant k <= |arrivals| && forall i | 0 <= i < k :: Welcome(connectionId, arrivals, i)
    {
      k := k + 1;
    }
    WelcomeGoesOn(connectionId, arrivals, k);
    if k < |arrivals| {
      UnwelcomeStops(connectionId, arrivals, k);
    } else {
      assert arrivals[..k] == arrivals;
    }
  }

  /** The loop is still running exactly when no arrival so far was foreign or behind. */
  lemma RunningIff(connectionId: u32, arrivals: seq<Frame>)
    ensures After(connectionId, arrivals).running
            <==> forall i | 0 <= i < |arrivals| :: Welcome(connectionId, arrivals, i)
    ensures After(connectionId, arrivals).running ==> After(connectionId, arrivals).session == Receive(connectionId, arrivals)
  {
    var k := LoopIsReceive(connectionId, arrivals);
    assert arrivals[..|arrivals|] == arrivals;
  }

  // ---- One sender -----------------------------------------------------------

  /** Arrival `i` is a copy of a frame that has come, as have all before it: the session has handed it up. */
  ghost predicate Late(created: seq<Frame>, arrivals: seq<Frame>, i: nat)
    requires i < |arrivals|
  {
    var s := arrivals[i].header.sequence;
    s < |created| && forall j | 0 <= j <= s :: created[j] in arrivals[..i]
  }

  ghost predicate OnTime(created: seq<Frame>, arrivals: seq<Frame>, k: nat)
    requires k <= |arrivals|
  {
    forall i | 0 <= i < k :: !Late(created, arrivals, i)
  }

  lemma WelcomeIff(connectionId: u32, created: seq<Frame>, arrivals: seq<Frame>, i: nat)
    requires Numbered(connectionId, created) && |created| < 0x1_0000_0000_0000_0000
    requires i < |arrivals| && forall f | f in arrivals :: f in created
    ensures Welcome(connectionId, arrivals, i) <==> !Late(created, arrivals, i)
  {
    assert arrivals[i] in arrivals;
    DeliveryIsPrefix(connectionId, created, arrivals[..i]);
  }

  /**
   One sender's frames in any order, with any copies and losses: what has gone to the device is a prefix of
   the frames created; the loop is running exactly if no copy came late; and everything has been delivered
   exactly if every frame had come before the first late copy.
   */
  lemma LoopDelivers(connectionId: u32, created: seq<Frame>, arrivals: seq<Frame>)
    requires Numbered(connectionId, created) && |created| < 0x1_0000_0000_0000_0000
    requires forall f | f in arrivals :: f in created
    ensures var l := After(connectionId, arrivals);
            && l.session.delivered <= created
            && (l.running <==> OnTime(created, arrivals, |arrivals|))
            && (l.session.delivered == created
                <==> exists k: nat :: k <= |arrivals| && OnTime(created, arrivals, k) && forall f | f in created :: f in arrivals[..k])
  {
    var k := LoopIsReceive(connectionId, arrivals);
    forall i | 0 <= i < |arrivals| ensures Welcome(connectionId, arrivals, i) <==> !Late(created, arrivals, i) {
      WelcomeIff(connectionId, created, arrivals, i);
    }
    DeliveryIsPrefix(connectionId, created, arrivals[..k]);
    var d := Receive(connectionId, arrivals[..k]);
    if d.delivered == created {
      assert d.rx.next == |created|;
      assert OnTime(created, arrivals, k) && forall f | f in created :: f in arrivals[..k];
    }
    if j: nat :| j <= |arrivals| && OnTime(created, arrivals, j) && forall f | f in created :: f in arrivals[..j] {
      assert j <= k;
      forall f | f in created ensures f in arrivals[..k] {
        assert f in arrivals[..j] && arrivals[..j] <= arrivals[..k];
      }
    }
  }

  /** A loop that is still running has delivered everything once everything has come. */
  lemma AllDelivered(connectionId: u32, created: seq<Frame>, arrivals: seq<Frame>)
    requires Numbered(connectionId, created) && |created| < 0x1_0000_0000_0000_0000
    requires forall f | f in arrivals :: f in created
    requires After(connectionId, arrivals).running && forall f | f in created :: f in arrivals
    ensures After(connectionId, arrivals).session.delivered == created
  {
    RunningIff(connectionId, arrivals);
    DeliveryIsPrefix(connectionId, created, arrivals);
  }

  lemma FirstFrame(connectionId: u32, first: Frame)
    requires first.header.connectionId == connectionId && first.header.sequence == 0
    ensures Step(After(connectionId, []), first) == Loop(true, Delivery(Rx(connectionId, 1, map[]), [first]))
  {
    var none: map<u64, Frame> := map[];
    var buffer := none[0 := first];
    assert buffer - {0} == none && Drain(1, none) == Drained([], 1, none);
    assert Drain(0, buffer) == Drained([first], 1, none);
  }

  /** The copies are no detail: a frame received twice in a row keeps the next one from ever being delivered. */
  lemma CopyEndsLoop(connectionId: u32, first: Frame, second: Frame)
    requires Numbered(connectionId, [first, second])
    ensures var l := After(connectionId, [first, first, second]);
            !l.running && l.session.delivered == [first]
  {
    assert [first, second][0] == first;
    FirstFrame(connectionId, first);
    StepTaken(Loop(true, Delivery(Rx(connectionId, 1, map[]), [first])), first);
    OneMoreFrame(connectionId, [], first);
    OneMoreFrame(connectionId, [first], first);
    OneMoreFrame(connectionId, [first, first], second);
    assert [] + [first] == [first] && [first] + [first] == [first, first];
    assert [first, first] + [second] == [first, first, second];
  }
}
