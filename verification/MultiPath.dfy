/**
 The product's central promise, composed from the framing, the session layer and the packet loop:
 frames of one sender, spread over any number of byte streams, come out in order and exactly once.
 */
module MultiPath {
  import opened Framing
  import opened Octets
  import PacketLoop
  import opened Sequences
  import opened Session

  /** A stream delivers some bytes, or the loop's `recv` on a path completes if its buffer holds a whole frame. */
  datatype Event = Read(path: nat, bytes: seq<byte>) | Recv(path: nat)

  /**
   The receiving node: one read buffer a path, and the packet loop with its session. `taken` and
   `arrivals` record the frames read off each path and the order they reached the session in.
   */
  datatype Node = Node(buffers: seq<seq<byte>>, loop: PacketLoop.Loop, taken: seq<seq<Frame>>, arrivals: seq<Frame>)

  function Start(connectionId: u32, paths: nat): (r: Node) {
    Node(seq(paths, _ => []), PacketLoop.After(connectionId, []), seq(paths, _ => []), [])
  }

  function Step(n: Node, e: Event): (r: Node)
    requires |n.taken| == |n.buffers|
    ensures |r.buffers| == |n.buffers| == |r.taken|
  {
    if e.path >= |n.buffers| then n
    else if e.Read? then n.(buffers := n.buffers[e.path := n.buffers[e.path] + e.bytes])
    else if !n.loop.running then n
    else
      match FrontOf(n.buffers[e.path])
      case Ready(f, rest) =>
        Node(n.buffers[e.path := rest],
             PacketLoop.Step(n.loop, f),
             n.taken[e.path := n.taken[e.path] + [f]],
             n.arrivals + [f])
      case _ => n
  }

  function Run(connectionId: u32, paths: nat, events: seq<Event>): (r: Node)
    ensures |r.buffers| == paths == |r.taken|
  {
    if events == [] then Start(connectionId, paths)
    else Step(Run(connectionId, paths, events[..|events| - 1]), events[|events| - 1])
  }

  /** Everything path `p` has delivered. */
  function Arrived(events: seq<Event>, p: nat): (r: seq<byte>) {
    if events == [] then []
    else
      var e := events[|events| - 1];
      Arrived(events[..|events| - 1], p) + if e.Read? && e.path == p then e.bytes else []
  }

  ghost predicate PathInv(buffer: seq<byte>, taken: seq<Frame>, arrived: seq<byte>) {
    arrived == Wires(taken) + buffer && forall f | f in taken :: Sendable(f)
  }

  lemma {:induction false} EveryPathIsRead(connectionId: u32, paths: nat, events: seq<Event>, p: nat)
    requires p < paths
    ensures var n := Run(connectionId, paths, events);
            PathInv(n.buffers[p], n.taken[p], Arrived(events, p))
  {
    if events != [] {
      var earlier, e := events[..|events| - 1], events[|events| - 1];
      EveryPathIsRead(connectionId, paths, earlier, p);
      var n := Run(connectionId, paths, earlier);
      if e.path == p {
        PathStep(n.buffers[p], n.taken[p], Arrived(earlier, p), if e.Read? then e.bytes else []);
      }
    }
  }

  lemma PathStep(buffer: seq<byte>, taken: seq<Frame>, arrived: seq<byte>, more: seq<byte>)
    requires PathInv(buffer, taken, arrived)
    ensures PathInv(buffer + more, taken, arrived + more)
    ensures FrontOf(buffer).Ready? ==> PathInv(FrontOf(buffer).rest, taken + [FrontOf(buffer).frame], arrived)
  {
    Associative(Wires(taken), buffer, more);
    match FrontOf(buffer)
    case Ready(f, rest) =>
      WiresAppend(taken, f);
      Associative(Wires(taken), Wire(f), rest);
    case _ =>
  }

  /** The loop is where the frames in order of arrival lead it. */
  lemma {:induction false} LoopIsAfter(connectionId: u32, paths: nat, events: seq<Event>)
    ensures var n := Run(connectionId, paths, events);
            n.loop == PacketLoop.After(connectionId, n.arrivals)
  {
    if events != [] {
      LoopIsAfter(connectionId, paths, events[..|events| - 1]);
      var n, m := Run(connectionId, paths, events[..|events| - 1]), Run(connectionId, paths, events);
      if m.arrivals != n.arrivals {
        PacketLoop.OneMoreFrame(connectionId, n.arrivals, FrontOf(n.buffers[events[|events| - 1].path]).frame);
      }
    }
  }

  ghost predicate OnSomePath(taken: seq<seq<Frame>>, f: Frame) {
    exists p :: 0 <= p < |taken| && f in taken[p]
  }

  /** Exactly the frames taken off the paths reach the session. */
  lemma {:induction false} ArrivalsWereTaken(connectionId: u32, paths: nat, events: seq<Event>, f: Frame)
    ensures var n := Run(connectionId, paths, events);
            f in n.arrivals <==> OnSomePath(n.taken, f)
  {
    if events != [] {
      var e := events[|events| - 1];
      ArrivalsWereTaken(connectionId, paths, events[..|events| - 1], f);
      var n, m := Run(connectionId, paths, events[..|events| - 1]), Run(connectionId, paths, events);
      if m.taken != n.taken {
        TakenGrows(n.taken, e.path, FrontOf(n.buffers[e.path]).frame, f);
      }
    }
  }

  lemma TakenGrows(taken: seq<seq<Frame>>, p: nat, g: Frame, f: Frame)
    requires p < |taken|
    ensures OnSomePath(taken[p := taken[p] + [g]], f) <==> OnSomePath(taken, f) || f == g
  {
    var after := taken[p := taken[p] + [g]];
    if OnSomePath(taken, f) {
      var q :| 0 <= q < |taken| && f in taken[q];
      assert f in after[q];
    }
    assert g in after[p];
  }

  /** Some path has carried the whole of frame `f`. */
  ghost predicate HasArrived(events: seq<Event>, paths: nat, f: Frame) {
    exists p :: 0 <= p < paths && f in Parse(Arrived(events, p))
  }

  /** No `recv` could return another frame without more bytes. */
  ghost predicate Caught(n: Node) {
    forall p | 0 <= p < |n.buffers| :: !FrontOf(n.buffers[p]).Ready?
  }

  /**
   Path `p` carries the frames `sent[p]`: any of the sender's frames, any number of times, in any
   order. The bytes of each path arrive cut off anywhere and in any chunks, interleaved with the other
   paths and with `recv` calls in any way. What goes to the device is always a prefix of the frames
   created. The loop goes on exactly while no copy of a delivered frame is read; while it does, all
   frames are delivered once each has arrived on some path and been read.
   */
  lemma FramesComeOutInOrder(connectionId: u32, created: seq<Frame>, sent: seq<seq<Frame>>, events: seq<Event>)
    requires Numbered(connectionId, created) && |created| < 0x1_0000_0000_0000_0000
    requires forall f | f in created :: Sendable(f)
    requires forall p, f | 0 <= p < |sent| && f in sent[p] :: f in created
    requires forall p | 0 <= p < |sent| :: Arrived(events, p) <= Wires(sent[p])
    ensures var n := Run(connectionId, |sent|, events);
            && n.loop.session.delivered <= created
            && (n.loop.running <==> PacketLoop.OnTime(created, n.arrivals, |n.arrivals|))
            && (n.loop.running && Caught(n) && (forall f | f in created :: HasArrived(events, |sent|, f))
                ==> n.loop.session.delivered == created)
  {
    var n := Run(connectionId, |sent|, events);
    LoopIsAfter(connectionId, |sent|, events);
    forall f | f in n.arrivals ensures f in created {
      ArrivalWasSent(connectionId, sent, events, f);
    }
    PacketLoop.LoopDelivers(connectionId, created, n.arrivals);
    if n.loop.running && Caught(n) && (forall f | f in created :: HasArrived(events, |sent|, f)) {
      forall f | f in created ensures f in n.arrivals {
        CaughtIsIngested(connectionId, |sent|, events, f);
      }
      PacketLoop.AllDelivered(connectionId, created, n.arrivals);
    }
  }

  /** Once every path has been read as far as it goes, every frame that arrived has reached the session. */
  lemma CaughtIsIngested(connectionId: u32, paths: nat, events: seq<Event>, f: Frame)
    requires Caught(Run(connectionId, paths, events)) && HasArrived(events, paths, f)
    ensures f in Run(connectionId, paths, events).arrivals
  {
    var n := Run(connectionId, paths, events);
    var p :| 0 <= p < paths && f in Parse(Arrived(events, p));
    EveryPathIsRead(connectionId, paths, events, p);
    ReaderRefinesFrames(Arrived(events, p), n.taken[p], n.buffers[p]);
    ArrivalsWereTaken(connectionId, paths, events, f);
  }

  // ---- Reading does get on --------------------------------------------------

  function Follow(n: Node, events: seq<Event>): (r: Node)
    requires |n.taken| == |n.buffers|
    ensures |r.buffers| == |n.buffers| == |r.taken|
  {
    if events == [] then n else Step(Follow(n, events[..|events| - 1]), events[|events| - 1])
  }

  lemma {:induction false} RunFollows(connectionId: u32, paths: nat, events: seq<Event>, more: seq<Event>)
    ensures Run(connectionId, paths, events + more) == Follow(Run(connectionId, paths, events), more)
  {
    if more == [] {
      assert events + more == events;
    } else {
      var n := |more| - 1;
      RunFollows(connectionId, paths, events, more[..n]);
      assert (events + more)[..|events + more| - 1] == events + more[..n];
    }
  }

  /** A `recv` of a running loop on a path with a whole frame buffered takes it, hands it to the session and leaves the rest. */
  lemma RecvTakesFront(n: Node, p: nat)
    requires |n.taken| == |n.buffers| && p < |n.buffers| && n.loop.running && FrontOf(n.buffers[p]).Ready?
    ensures var r, f := Step(n, Recv(p)), FrontOf(n.buffers[p]).frame;
            && r.arrivals == n.arrivals + [f] && r.taken == n.taken[p := n.taken[p] + [f]] && r.loop == PacketLoop.Step(n.loop, f)
            && n.buffers[p] == Wire(f) + r.buffers[p] && forall q | 0 <= q < |n.buffers| && q != p :: r.buffers[q] == n.buffers[q]
  {
  }

  ghost function Buffered(buffers: seq<seq<byte>>): (r: nat) {
    if buffers == [] then 0 else Buffered(buffers[..|buffers| - 1]) + |buffers[|buffers| - 1]|
  }

  lemma {:induction false} BufferShrinks(buffers: seq<seq<byte>>, p: nat, rest: seq<byte>)
    requires p < |buffers| && |rest| < |buffers[p]|
    ensures Buffered(buffers[p := rest]) < Buffered(buffers)
  {
    var n := |buffers| - 1;
    if p < n {
      BufferShrinks(buffers[..n], p, rest);
      assert buffers[p := rest][..n] == buffers[..n][p := rest];
    } else {
      assert buffers[p := rest][..n] == buffers[..n];
    }
  }

  /** From anywhere, finitely many `recv` calls read every path as far as it goes, unless the loop ends first. */
  lemma {:induction false} CatchesUp(n: Node) returns (more: seq<Event>)
    requires |n.taken| == |n.buffers|
    ensures (forall e | e in more :: e.Recv?) && (Caught(Follow(n, more)) || !Follow(n, more).loop.running)
    decreases Buffered(n.buffers)
  {
    more := [];
    if !Caught(n) && n.loop.running {
      var p: nat :| p < |n.buffers| && FrontOf(n.buffers[p]).Ready?;
      RecvTakesFront(n, p);
      var r := Step(n, Recv(p));
      BufferShrinks(n.buffers, p, FrontOf(n.buffers[p]).rest);
      var rest := CatchesUp(r);
      more := [Recv(p)] + rest;
      FollowOn(n, Recv(p), rest);
    }
  }

  lemma {:induction false} FollowOn(n: Node, e: Event, rest: seq<Event>)
    requires |n.taken| == |n.buffers|
    ensures Follow(n, [e] + rest) == Follow(Step(n, e), rest)
  {
    if rest == [] {
      assert [e] + rest == [e] && [e][..0] == [];
    } else {
      var k := |rest| - 1;
      FollowOn(n, e, rest[..k]);
      assert ([e] + rest)[..|[e] + rest| - 1] == [e] + rest[..k];
    }
  }

  // ---- What arrives was sent ------------------------------------------------

  lemma ArrivalWasSent(connectionId: u32, sent: seq<seq<Frame>>, events: seq<Event>, f: Frame)
    requires forall p, g | 0 <= p < |sent| && g in sent[p] :: Sendable(g)
    requires forall p | 0 <= p < |sent| :: Arrived(events, p) <= Wires(sent[p])
    requires f in Run(connectionId, |sent|, events).arrivals
    ensures OnSomePath(sent, f)
  {
    var n := Run(connectionId, |sent|, events);
    ArrivalsWereTaken(connectionId, |sent|, events, f);
    var p :| 0 <= p < |sent| && f in n.taken[p];
    TakenWereSent(connectionId, sent, events, p);
    assert f in sent[p];
  }

  lemma TakenWereSent(connectionId: u32, sent: seq<seq<Frame>>, events: seq<Event>, p: nat)
    requires p < |sent| && (forall f | f in sent[p] :: Sendable(f)) && Arrived(events, p) <= Wires(sent[p])
    ensures Run(connectionId, |sent|, events).taken[p] <= sent[p]
  {
    var n := Run(connectionId, |sent|, events);
    EveryPathIsRead(connectionId, |sent|, events, p);
    ReaderRefinesFrames(Arrived(events, p), n.taken[p], n.buffers[p]);
    ParseCutStream(sent[p], Arrived(events, p));
  }
}
