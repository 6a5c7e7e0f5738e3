/**
 The lifecycle of peer-relay paths on the client. A browse task discovers and dials peers; the
 owners of the transports report each one's end through a channel the browse task listens on.
 A run is any interleaving of their steps.
 */
module PeerPaths {
  type PeerId = string

  /** `Armed` while the transport holds its close notifier; then its notice is on the channel, then taken. */
  datatype Status = Armed | Posted | Taken

  datatype Transport = Transport(peer: PeerId, status: Status)

  /** `Handing` is after the transport went to its owner and before the peer is noted as connected. */
  datatype Browse = Idle | Dialling(peer: PeerId) | Handing(peer: PeerId) | Stopped

  /**
   The channel carries peer ids; `posted` records which transport each of them came from, and
   `notices` every transport that has ever notified, in order.
   */
  datatype State = State(
    browse: Browse,
    connected: set<PeerId>,
    transports: seq<Transport>,
    channel: seq<PeerId>,
    posted: seq<nat>,
    notices: seq<nat>)

  const START: State := State(Idle, {}, [], [], [], [])

  datatype Step =
    | Discover(peer: PeerId, acceptable: bool)
    | DialFails
    | DialSucceeds
    | OwnerGone                // the transport channel has no receiver left
    | NoteConnected
    | TransportEnds(t: nat)    // an error on send or recv, or a close; may happen more than once
    | TakeNotice
    | BrowserStops

  /** The conditions on `posted` hold whenever the channel is not empty. */
  predicate Enabled(s: State, e: Step) {
    match e
    case Discover(_, _) => s.browse == Idle
    case DialFails => s.browse.Dialling?
    case DialSucceeds => s.browse.Dialling?
    case OwnerGone => s.browse.Dialling?
    case NoteConnected => s.browse.Handing?
    case TransportEnds(t) => t < |s.transports|
    case TakeNotice => s.browse == Idle && s.channel != [] && s.posted != [] && s.posted[0] < |s.transports|
    case BrowserStops => s.browse == Idle
  }

  function Apply(s: State, e: Step): (r: State)
    requires Enabled(s, e)
  {
    match e
    case Discover(p, acceptable) => if acceptable && p !in s.connected then s.(browse := Dialling(p)) else s
    case DialFails => s.(browse := Idle)
    case DialSucceeds => s.(browse := Handing(s.browse.peer), transports := s.transports + [Transport(s.browse.peer, Armed)])
    case OwnerGone => s.(browse := Stopped)
    case NoteConnected => s.(browse := Idle, connected := s.connected + {s.browse.peer})
    case TransportEnds(t) =>
      var transport := s.transports[t];
      if transport.status != Armed then s
      else s.(transports := s.transports[t := transport.(status := Posted)],
              channel := s.channel + [transport.peer],
              posted := s.posted + [t],
              notices := s.notices + [t])
    case TakeNotice =>
      s.(connected := s.connected - {s.channel[0]}, channel := s.channel[1..],
         posted := s.posted[1..], transports := s.transports[s.posted[0] := s.transports[s.posted[0]].(status := Taken)])
    case BrowserStops => s.(browse := Stopped)
  }

  predicate IsRun(s: State, steps: seq<Step>)
    decreases |steps|
  {
    steps == [] || (Enabled(s, steps[0]) && IsRun(Apply(s, steps[0]), steps[1..]))
  }

  function After(s: State, steps: seq<Step>): (r: State)
    requires IsRun(s, steps)
    decreases |steps|
  {
    if steps == [] then s else After(Apply(s, steps[0]), steps[1..])
  }

  // ---- What every run keeps -------------------------------------------------

  /** The browse task knows of the peer, or is about to. */
  ghost predicate Known(s: State, p: PeerId) {
    p in s.connected || s.browse == Handing(p)
  }

  /** Transport `t` can still notify, or its notice is still on the channel. */
  ghost predicate Open(s: State, t: int) {
    0 <= t < |s.transports| && s.transports[t].status != Taken
  }

  ghost predicate ChannelInv(s: State) {
    && |s.posted| == |s.channel|
    && (forall i | 0 <= i < |s.posted| :: s.posted[i] < |s.transports| && s.transports[s.posted[i]] == Transport(s.channel[i], Posted))
    && (forall i, j | 0 <= i < j < |s.posted| :: s.posted[i] != s.posted[j])
    && (forall t | 0 <= t < |s.transports| && s.transports[t].status == Posted :: t in s.posted)
  }

  /** Every transport that is no longer armed notified once. */
  ghost predicate NoticeInv(s: State) {
    && (forall i | 0 <= i < |s.notices| :: s.notices[i] < |s.transports| && s.transports[s.notices[i]].status != Armed)
    && (forall i, j | 0 <= i < j < |s.notices| :: s.notices[i] != s.notices[j])
    && (forall t | 0 <= t < |s.transports| && s.transports[t].status != Armed :: t in s.notices)
  }

  ghost predicate PathInv(s: State) {
    && (forall t, u | Open(s, t) && Open(s, u) && s.transports[t].peer == s.transports[u].peer :: t == u)
    && (forall t | Open(s, t) :: Known(s, s.transports[t].peer))
    && (s.browse.Dialling? || s.browse.Handing? ==> s.browse.peer !in s.connected)
  }

  ghost predicate Inv(s: State) {
    ChannelInv(s) && NoticeInv(s) && PathInv(s)
  }

  lemma EndKeepsChannel(s: State, t: nat)
    requires ChannelInv(s) && t < |s.transports| && s.transports[t].status == Armed
    ensures ChannelInv(Apply(s, TransportEnds(t)))
  {
  }

  lemma TakeKeepsChannel(s: State)
    requires ChannelInv(s) && Enabled(s, TakeNotice)
    ensures ChannelInv(Apply(s, TakeNotice))
  {
  }

  lemma StepKeepsChannel(s: State, e: Step)
    requires ChannelInv(s) && Enabled(s, e)
    ensures ChannelInv(Apply(s, e))
  {
    match e
    case TransportEnds(t) => if s.transports[t].status == Armed { EndKeepsChannel(s, t); }
    case TakeNotice => TakeKeepsChannel(s);
    case _ =>
  }

  lemma StepKeepsNotices(s: State, e: Step)
    requires ChannelInv(s) && NoticeInv(s) && Enabled(s, e)
    ensures NoticeInv(Apply(s, e))
  {
    match e
    case TransportEnds(t) =>
      var r := Apply(s, e);
      if s.transports[t].status == Armed {
        assert r.notices[|s.notices|] == t;
        assert forall u | u in s.notices :: u in r.notices;
      }
    case TakeNotice =>
      assert s.posted[0] in s.notices;
    case _ =>
  }

  lemma StepKeepsPaths(s: State, e: Step)
    requires ChannelInv(s) && PathInv(s) && Enabled(s, e)
    ensures PathInv(Apply(s, e))
  {
    var r := Apply(s, e);
    match e
    case DialSucceeds =>
      forall u | Open(r, u) && u < |s.transports| ensures Open(s, u) && s.transports[u].peer in s.connected {
        assert Known(s, s.transports[u].peer);
      }
    case TakeNotice =>
      var first := s.posted[0];
      assert Open(s, first);
      forall u | Open(r, u) ensures Open(s, u) && s.transports[u].peer != s.channel[0] {
        assert u != first;
      }
    case _ =>
      assert forall u :: Open(r, u) <==> Open(s, u);
  }

  lemma {:induction false} EveryRunKeepsInv(s: State, steps: seq<Step>)
    requires Inv(s) && IsRun(s, steps)
    ensures Inv(After(s, steps))
    decreases |steps|
  {
    if steps != [] {
      StepKeepsChannel(s, steps[0]);
      StepKeepsNotices(s, steps[0]);
      StepKeepsPaths(s, steps[0]);
      EveryRunKeepsInv(Apply(s, steps[0]), steps[1..]);
    }
  }

  // ---- The promises ---------------------------------------------------------

  /** At most one transport a peer has not been written off, and no transport ever notifies twice. */
  lemma OnePathPerPeer(steps: seq<Step>, t: nat, u: nat)
    requires IsRun(START, steps)
    ensures var s := After(START, steps);
            && (Open(s, t) && Open(s, u) && s.transports[t].peer == s.transports[u].peer ==> t == u)
            && (t < u < |s.notices| ==> s.notices[t] != s.notices[u])
  {
    EveryRunKeepsInv(START, steps);
  }

  /** A discovery leads to a dial only when every earlier transport to the peer has notified and the notice was taken. */
  lemma NoRedialBeforeNotice(steps: seq<Step>, p: PeerId, t: nat)
    requires IsRun(START, steps) && Enabled(After(START, steps), Discover(p, true))
    requires Apply(After(START, steps), Discover(p, true)).browse == Dialling(p)
    requires t < |After(START, steps).transports| && After(START, steps).transports[t].peer == p
    ensures After(START, steps).transports[t].status == Taken
  {
    EveryRunKeepsInv(START, steps);
    assert !Known(After(START, steps), p);
  }

  /** A transport that ends while armed puts its peer on the channel, once; one that has notified changes nothing. */
  lemma EndNotifies(s: State, t: nat)
    requires t < |s.transports|
    ensures var r := Apply(s, TransportEnds(t));
            if s.transports[t].status == Armed
            then r.channel == s.channel + [s.transports[t].peer] && r.transports[t].status == Posted && r.connected == s.connected
            else r == s
  {
  }

  /** In every run, once a peer's notice has been taken the peer has no open transport, and discovering it leads to a dial. */
  lemma TakenPeerIsDialledAgain(steps: seq<Step>)
    requires IsRun(START, steps) && Enabled(After(START, steps), TakeNotice)
    ensures var p, r := After(START, steps).channel[0], Apply(After(START, steps), TakeNotice);
            && p !in r.connected && (forall t | Open(r, t) :: r.transports[t].peer != p)
            && Enabled(r, Discover(p, true)) && Apply(r, Discover(p, true)).browse == Dialling(p)
            && r.channel == After(START, steps).channel[1..]
  {
    EveryRunKeepsInv(START, steps);
    var s := After(START, steps);
    StepKeepsPaths(s, TakeNotice);
    var r := Apply(s, TakeNotice);
    forall t | Open(r, t) ensures r.transports[t].peer != s.channel[0] {
      assert Known(r, r.transports[t].peer);
    }
  }

  /** A discovery is dialled exactly if the peer is acceptable and not known to be connected; a failed dial leaves it so. */
  lemma DialledIff(s: State, p: PeerId, acceptable: bool)
    requires Enabled(s, Discover(p, acceptable))
    ensures var r := Apply(s, Discover(p, acceptable));
            && (r.browse == Dialling(p) <==> acceptable && p !in s.connected)
            && (r.browse != Dialling(p) ==> r == s)
            && (r.browse == Dialling(p) ==> Apply(r, DialFails) == s)
  {
  }

  /** When the owner of the transports is gone or the browser stops, no peer is dialled again. */
  lemma StoppedForGood(s: State, e: Step)
    requires Enabled(s, e)
    ensures e.OwnerGone? || e.BrowserStops? ==> Apply(s, e).browse == Stopped
    ensures s.browse == Stopped ==> Apply(s, e).browse == Stopped && |Apply(s, e).transports| == |s.transports|
  {
  }

  /** The whole life of a path, for any peer: found, dialled, handed over, ended, reported, and found and dialled again. */
  lemma PathLivesAndReturns(p: PeerId)
    ensures var life := [Discover(p, true), DialSucceeds, NoteConnected, TransportEnds(0), TakeNotice, Discover(p, true), DialSucceeds];
            && IsRun(START, life)
            && After(START, life).transports == [Transport(p, Taken), Transport(p, Armed)]
  {
    var s1 := Apply(START, Discover(p, true));
    var s2 := Apply(s1, DialSucceeds);
    var s3 := Apply(s2, NoteConnected);
    var s4 := Apply(s3, TransportEnds(0));
    var s5 := Apply(s4, TakeNotice);
    var s6 := Apply(s5, Discover(p, true));
    assert s5.connected == {};
    var s7 := Apply(s6, DialSucceeds);
    assert s7.transports == [Transport(p, Taken), Transport(p, Armed)];
    OneStepOn(s6, DialSucceeds, []);
    OneStepOn(s5, Discover(p, true), [DialSucceeds]);
    OneStepOn(s4, TakeNotice, [Discover(p, true), DialSucceeds]);
    OneStepOn(s3, TransportEnds(0), [TakeNotice, Discover(p, true), DialSucceeds]);
    OneStepOn(s2, NoteConnected, [TransportEnds(0), TakeNotice, Discover(p, true), DialSucceeds]);
    OneStepOn(s1, DialSucceeds, [NoteConnected, TransportEnds(0), TakeNotice, Discover(p, true), DialSucceeds]);
    OneStepOn(START, Discover(p, true), [DialSucceeds, NoteConnected, TransportEnds(0), TakeNotice, Discover(p, true), DialSucceeds]);
  }

  lemma OneStepOn(s: State, e: Step, rest: seq<Step>)
    requires Enabled(s, e) && IsRun(Apply(s, e), rest)
    ensures IsRun(s, [e] + rest) && After(s, [e] + rest) == After(Apply(s, e), rest)
  {
    assert ([e] + rest)[1..] == rest;
  }
}
