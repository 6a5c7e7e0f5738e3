/**
 Concurrent UDP forwarding: one task a client packet and one reply pump a flow, sharing a map
 of flows. Each step below is one critical section or one unlocked action; a run is any
 interleaving of the enabled steps of any number of tasks and pumps.
 */
module UdpFlows {
  import opened Octets
  import opened Packets

  datatype Key = Key(src: Ipv4, dst: Ipv4, srcPort: u16, dstPort: u16)

  /** What happened to a flow's sequence counter: a client number taken in, or a reply number handed out. */
  datatype Mark = Absorbed(sequence: u64) | Replied(sequence: u64)

  /** `Fresh` handles are not in the map yet; a `Discarded` one lost the race and never gets a pump. */
  datatype Phase = Fresh | Inserted | Pumping | Finishing | Removed | Discarded

  datatype Flow = Flow(key: Key, creator: nat, phase: Phase, nextSequence: u64, log: seq<Mark>)

  datatype Progress =
    | Arrived
    | Missed
    | Holding(flow: nat)
    | Registering(flow: nat)
    | Bound(flow: nat)
    | Forwarded(flow: nat)
    | Failed

  datatype Task = Task(key: Key, sequence: u64, at: Progress)

  datatype State = State(flowMap: map<Key, nat>, flows: seq<Flow>, tasks: seq<Task>)

  const START: State := State(map[], [], [])

  datatype Step =
    | Arrive(key: Key, sequence: u64)   // a client packet spawns a task
    | FastPath(task: nat)               // first lookup, under the map lock
    | Create(task: nat, bound: bool)    // bind and connect a socket, or fail
    | Publish(task: nat)                // second lookup and insertion, under the map lock
    | Spawn(task: nat)                  // start the pump
    | Absorb(task: nat)                 // take in the client sequence, under the flow lock
    | Reply(flow: nat)                  // the pump numbers a reply, under the flow lock
    | Leave(flow: nat)                  // the pump's loop ends: idle, socket error or closed channel
    | Remove(flow: nat)                 // the pump removes its key, under the map lock

  predicate Enabled(s: State, e: Step) {
    match e
    case Arrive(_, _) => true
    case FastPath(t) => t < |s.tasks| && s.tasks[t].at == Arrived
    case Create(t, _) => t < |s.tasks| && s.tasks[t].at == Missed
    case Publish(t) => t < |s.tasks| && s.tasks[t].at.Holding? && s.tasks[t].at.flow < |s.flows|
    case Spawn(t) => t < |s.tasks| && s.tasks[t].at.Registering? && s.tasks[t].at.flow < |s.flows|
    case Absorb(t) => t < |s.tasks| && s.tasks[t].at.Bound? && s.tasks[t].at.flow < |s.flows|
    case Reply(f) => f < |s.flows| && s.flows[f].phase == Pumping
    case Leave(f) => f < |s.flows| && s.flows[f].phase == Pumping
    case Remove(f) => f < |s.flows| && s.flows[f].phase == Finishing
  }

  function AtTask(s: State, t: nat, at: Progress): (r: State)
    requires t < |s.tasks|
  {
    s.(tasks := s.tasks[t := s.tasks[t].(at := at)])
  }

  function AtFlow(s: State, f: nat, phase: Phase): (r: State)
    requires f < |s.flows|
  {
    s.(flows := s.flows[f := s.flows[f].(phase := phase)])
  }

  function Max(a: u64, b: u64): (r: u64) {
    if a > b then a else b
  }

  function Apply(s: State, e: Step): (r: State)
    requires Enabled(s, e)
  {
    match e
    case Arrive(key, sequence) => s.(tasks := s.tasks + [Task(key, sequence, Arrived)])
    case FastPath(t) =>
      var key := s.tasks[t].key;
      AtTask(s, t, if key in s.flowMap then Bound(s.flowMap[key]) else Missed)
    case Create(t, bound) =>
      if !bound then AtTask(s, t, Failed)
      else
        var task := s.tasks[t];
        AtTask(s.(flows := s.flows + [Flow(task.key, t, Fresh, task.sequence, [Absorbed(task.sequence)])]), t, Holding(|s.flows|))
    case Publish(t) =>
      var key, f := s.tasks[t].key, s.tasks[t].at.flow;
      if key in s.flowMap then AtTask(AtFlow(s, f, Discarded), t, Bound(s.flowMap[key]))
      else AtTask(AtFlow(s.(flowMap := s.flowMap[key := f]), f, Inserted), t, Registering(f))
    case Spawn(t) => AtTask(AtFlow(s, s.tasks[t].at.flow, Pumping), t, Bound(s.tasks[t].at.flow))
    case Absorb(t) =>
      var f, sequence := s.tasks[t].at.flow, s.tasks[t].sequence;
      var flow := s.flows[f];
      var absorbed := flow.(nextSequence := Max(flow.nextSequence, sequence), log := flow.log + [Absorbed(sequence)]);
      AtTask(s.(flows := s.flows[f := absorbed]), t, Forwarded(f))
    case Reply(f) =>
      var flow := s.flows[f];
      s.(flows := s.flows[f := flow.(nextSequence := WrappingSucc(flow.nextSequence), log := flow.log + [Replied(flow.nextSequence)])])
    case Leave(f) => AtFlow(s, f, Finishing)
    case Remove(f) => AtFlow(s.(flowMap := s.flowMap - {s.flows[f].key}), f, Removed)
  }

  /** A run: every step is enabled where it is taken. */
  predicate IsRun(s: State, steps: seq<Step>)
    decreases |steps|
  {
    steps == [] || (Enabled(s, steps[0]) && IsRun(Apply(s, steps[0]), steps[1..]))
  }

  function After(s: State, steps: seq<Step>): (r: State)
    requires IsRun(s, steps)
    decreases |steps|
  {
    if steps == [] then s else After(Apply(s, steps[0]), steps[1..])
  }

  // ---- What every run keeps -------------------------------------------------

  /** The flow has, or is about to get, a pump that has not yet removed its key. */
  predicate Live(f: Flow) {
    f.phase in {Inserted, Pumping, Finishing}
  }

  /** The map holds exactly the live flows. */
  ghost predicate MapInv(s: State) {
    && (forall k | k in s.flowMap :: s.flowMap[k] < |s.flows| && s.flows[s.flowMap[k]].key == k && Live(s.flows[s.flowMap[k]]))
    && (forall f | 0 <= f < |s.flows| && Live(s.flows[f]) :: s.flows[f].key in s.flowMap && s.flowMap[s.flows[f].key] == f)
  }

  ghost predicate TaskInv(s: State, t: nat)
    requires t < |s.tasks|
  {
    match s.tasks[t].at
    case Holding(f) => f < |s.flows| && s.flows[f].creator == t && s.flows[f].phase == Fresh && s.flows[f].key == s.tasks[t].key
    case Registering(f) => f < |s.flows| && s.flows[f].creator == t && s.flows[f].phase == Inserted && s.flows[f].key == s.tasks[t].key
    case Bound(f) => f < |s.flows| && s.flows[f].key == s.tasks[t].key
    case _ => true
  }

  /** A flow that is waiting for its pump is being registered by its creator. */
  ghost predicate OwnerInv(s: State, f: nat)
    requires f < |s.flows|
  {
    && s.flows[f].creator < |s.tasks|
    && (s.flows[f].phase == Inserted ==> s.tasks[s.flows[f].creator].at == Registering(f))
  }

  ghost predicate LogInv(flow: Flow) {
    && Faithful(flow.log) && flow.nextSequence == Counter(flow.log)
  }

  /** A packet that was forwarded had its number taken in by its flow. */
  ghost predicate ForwardInv(s: State, t: nat)
    requires t < |s.tasks|
  {
    s.tasks[t].at.Forwarded? ==>
      var f := s.tasks[t].at.flow;
      f < |s.flows| && s.flows[f].key == s.tasks[t].key && Absorbed(s.tasks[t].sequence) in s.flows[f].log
  }

  /** A flow's history starts with the number of the packet that created it. */
  ghost predicate OriginInv(s: State, f: nat)
    requires f < |s.flows|
  {
    && s.flows[f].creator < |s.tasks| && s.flows[f].key == s.tasks[s.flows[f].creator].key
    && s.flows[f].log != [] && s.flows[f].log[0] == Absorbed(s.tasks[s.flows[f].creator].sequence)
  }

  /** Map, tasks and flows are in step. */
  ghost predicate TableInv(s: State) {
    && MapInv(s)
    && (forall t | 0 <= t < |s.tasks| :: TaskInv(s, t))
    && (forall f | 0 <= f < |s.flows| :: OwnerInv(s, f))
  }

  ghost predicate Inv(s: State) {
    && TableInv(s)
    && (forall f | 0 <= f < |s.flows| :: LogInv(s.flows[f]) && OriginInv(s, f))
    && (forall t | 0 <= t < |s.tasks| :: ForwardInv(s, t))
  }

  ghost function Marked(before: u64, m: Mark): (r: u64) {
    if m.Absorbed? then Max(before, m.sequence) else WrappingSucc(before)
  }

  /** The counter after a history of marks. */
  ghost function Counter(log: seq<Mark>): (r: u64) {
    if log == [] then 0 else Marked(Counter(log[..|log| - 1]), log[|log| - 1])
  }

  /** Every reply carries the counter as it then stood. */
  ghost predicate Faithful(log: seq<Mark>) {
    forall i | 0 <= i < |log| && log[i].Replied? :: log[i].sequence == Counter(log[..i])
  }

  lemma OneMoreMark(log: seq<Mark>, m: Mark)
    requires Faithful(log) && (m.Replied? ==> m.sequence == Counter(log))
    ensures Faithful(log + [m])
    ensures Counter(log + [m]) == Marked(Counter(log), m)
  {
    var longer := log + [m];
    assert longer[..|log|] == log;
    assert forall i | 0 <= i < |log| :: longer[..i] == log[..i];
  }

  /** Changing a flow without touching its key or its liveness, or the map, keeps the two in step. */
  lemma SameLiveness(s: State, r: State)
    requires MapInv(s) && r.flowMap == s.flowMap && |s.flows| <= |r.flows|
    requires forall f | 0 <= f < |s.flows| :: r.flows[f].key == s.flows[f].key && Live(r.flows[f]) == Live(s.flows[f])
    requires forall f | |s.flows| <= f < |r.flows| :: !Live(r.flows[f])
    ensures MapInv(r)
  {
  }

  lemma InsertKeepsMap(s: State, f: nat)
    requires MapInv(s) && f < |s.flows| && !Live(s.flows[f]) && s.flows[f].key !in s.flowMap
    ensures MapInv(AtFlow(s.(flowMap := s.flowMap[s.flows[f].key := f]), f, Inserted))
  {
  }

  lemma RemoveKeepsMap(s: State, f: nat)
    requires MapInv(s) && f < |s.flows| && Live(s.flows[f])
    ensures MapInv(AtFlow(s.(flowMap := s.flowMap - {s.flows[f].key}), f, Removed))
  {
  }

  lemma StepKeepsMap(s: State, e: Step)
    requires TableInv(s) && Enabled(s, e)
    ensures MapInv(Apply(s, e))
  {
    match e
    case Publish(t) =>
      assert TaskInv(s, t);
      if s.tasks[t].key in s.flowMap {
        SameLiveness(s, Apply(s, e));
      } else {
        InsertKeepsMap(s, s.tasks[t].at.flow);
      }
    case Spawn(t) =>
      assert TaskInv(s, t);
      SameLiveness(s, Apply(s, e));
    case Remove(f) =>
      RemoveKeepsMap(s, f);
    case _ =>
      SameLiveness(s, Apply(s, e));
  }

  lemma StepKeepsTasks(s: State, e: Step, t: nat)
    requires TableInv(s) && Enabled(s, e) && t < |Apply(s, e).tasks|
    ensures TaskInv(Apply(s, e), t)
  {
    if t < |s.tasks| {
      assert TaskInv(s, t);
    }
    match e
    case FastPath(u) => assert TaskInv(s, u);
    case Publish(u) => assert TaskInv(s, u);
    case Spawn(u) => assert TaskInv(s, u);
    case _ =>
  }

  lemma StepKeepsOwners(s: State, e: Step, f: nat)
    requires TableInv(s) && Enabled(s, e) && f < |Apply(s, e).flows|
    ensures OwnerInv(Apply(s, e), f)
  {
    if f < |s.flows| {
      assert OwnerInv(s, f);
    }
    match e
    case Publish(t) => assert TaskInv(s, t);
    case Spawn(t) => assert TaskInv(s, t);
    case _ =>
  }

  lemma StepKeepsLog(s: State, e: Step, f: nat)
    requires Enabled(s, e) && f < |Apply(s, e).flows| && (f < |s.flows| ==> LogInv(s.flows[f]))
    ensures LogInv(Apply(s, e).flows[f])
  {
    match e
    case Create(t, bound) =>
      if f == |s.flows| {
        OneMoreMark([], Absorbed(s.tasks[t].sequence));
        assert [] + [Absorbed(s.tasks[t].sequence)] == [Absorbed(s.tasks[t].sequence)];
      }
    case Absorb(t) =>
      if f == s.tasks[t].at.flow { OneMoreMark(s.flows[f].log, Absorbed(s.tasks[t].sequence)); }
    case Reply(g) =>
      if f == g { OneMoreMark(s.flows[f].log, Replied(s.flows[f].nextSequence)); }
    case _ =>
  }

  lemma StepKeepsForwarded(s: State, e: Step, t: nat)
    requires TableInv(s) && Enabled(s, e) && t < |Apply(s, e).tasks| && (t < |s.tasks| ==> ForwardInv(s, t))
    ensures ForwardInv(Apply(s, e), t)
  {
    match e
    case Absorb(u) =>
      assert TaskInv(s, u);
      var f := s.tasks[u].at.flow;
      var log := s.flows[f].log + [Absorbed(s.tasks[u].sequence)];
      assert log[|s.flows[f].log|] == Absorbed(s.tasks[u].sequence);
      assert forall m | m in s.flows[f].log :: m in log;
    case _ =>
  }

  lemma StepKeepsOrigins(s: State, e: Step, f: nat)
    requires Enabled(s, e) && f < |Apply(s, e).flows| && (f < |s.flows| ==> OriginInv(s, f))
    ensures OriginInv(Apply(s, e), f)
  {
  }

  lemma StepKeepsInv(s: State, e: Step)
    requires Inv(s) && Enabled(s, e)
    ensures Inv(Apply(s, e))
  {
    var r := Apply(s, e);
    StepKeepsMap(s, e);
    forall t | 0 <= t < |r.tasks| ensures TaskInv(r, t) { StepKeepsTasks(s, e, t); }
    forall f | 0 <= f < |r.flows| ensures OwnerInv(r, f) { StepKeepsOwners(s, e, f); }
    forall f | 0 <= f < |r.flows| ensures LogInv(r.flows[f]) { StepKeepsLog(s, e, f); }
    forall f | 0 <= f < |r.flows| ensures OriginInv(r, f) { StepKeepsOrigins(s, e, f); }
    forall t | 0 <= t < |r.tasks| ensures ForwardInv(r, t) { StepKeepsForwarded(s, e, t); }
  }

  lemma {:induction false} EveryRunKeepsInv(s: State, steps: seq<Step>)
    requires Inv(s) && IsRun(s, steps)
    ensures Inv(After(s, steps))
    decreases |steps|
  {
    if steps != [] {
      StepKeepsInv(s, steps[0]);
      EveryRunKeepsInv(Apply(s, steps[0]), steps[1..]);
    }
  }

  // ---- The promises ---------------------------------------------------------

  /**
   In every reachable state each 4-tuple has at most one pump that is starting, running or not yet
   cleaned up, and the map has an entry for the 4-tuple exactly while there is one: that flow.
   */
  lemma OnePumpPerKey(steps: seq<Step>, f: nat, g: nat)
    requires IsRun(START, steps)
    requires var s := After(START, steps); f < |s.flows| && g < |s.flows|
    ensures var s := After(START, steps);
            && (Live(s.flows[f]) && Live(s.flows[g]) && s.flows[f].key == s.flows[g].key ==> f == g)
            && (Live(s.flows[f]) <==> s.flows[f].key in s.flowMap && s.flowMap[s.flows[f].key] == f)
  {
    EveryRunKeepsInv(START, steps);
  }

  /** A finishing pump removes its own entry and no other: a newer flow under the key survives. */
  lemma RemoveTakesOwnEntry(steps: seq<Step>, f: nat)
    requires IsRun(START, steps) && Enabled(After(START, steps), Remove(f))
    ensures var s := After(START, steps);
            var r := Apply(s, Remove(f));
            && s.flows[f].key in s.flowMap && s.flowMap[s.flows[f].key] == f
            && (forall k :: k in r.flowMap <==> k in s.flowMap && s.flowMap[k] != f)
            && (forall k | k in r.flowMap :: r.flowMap[k] == s.flowMap[k])
  {
    EveryRunKeepsInv(START, steps);
  }

  /** Reply numbers only go up, and never fall below a client number taken in before. */
  ghost predicate Ordered(log: seq<Mark>) {
    forall i, j | 0 <= i < j < |log| && log[j].Replied? ::
      if log[i].Replied? then log[i].sequence < log[j].sequence else log[i].sequence <= log[j].sequence
  }

  /** No reply follows one that carried the last 64-bit number. */
  ghost predicate NeverWraps(log: seq<Mark>) {
    forall i, j | 0 <= i < j < |log| && log[j].Replied? :: log[i] != Replied(MAX_U64)
  }

  /** How many replies there have been since mark `i`. */
  ghost function Replies(log: seq<Mark>, i: nat): (r: nat) {
    if |log| <= i + 1 then 0
    else Replies(log[..|log| - 1], i) + if log[|log| - 1].Replied? then 1 else 0
  }

  /** Whenever a reply is due, no client number taken in plus the replies since then goes beyond 64 bits. */
  ghost predicate InRange(log: seq<Mark>) {
    forall i, j | 0 <= i < j < |log| && log[i].Absorbed? && log[j].Replied? ::
      log[i].sequence + Replies(log[..j], i) <= MAX_U64
  }

  /** Replies of a flow are ordered in every run, exactly as long as client numbers and reply counts stay in range. */
  lemma RepliesOrderedIff(steps: seq<Step>, f: nat)
    requires IsRun(START, steps) && f < |After(START, steps).flows|
    ensures var log := After(START, steps).flows[f].log;
            Ordered(log) <==> InRange(log)
  {
    EveryRunKeepsInv(START, steps);
    var s := After(START, steps);
    assert LogInv(s.flows[f]) && OriginInv(s, f);
    OrderedIff(s.flows[f].log);
    NeverWrapsIff(s.flows[f].log);
  }

  /** Taking in a client number reaches the next reply: it carries that number, or the counter if that is ahead. */
  lemma AbsorbedReachesReply(s: State, t: nat)
    requires Enabled(s, Absorb(t)) && s.flows[s.tasks[t].at.flow].phase == Pumping
    ensures var f, taken := s.tasks[t].at.flow, s.tasks[t].sequence;
            var r := Apply(s, Absorb(t));
            && r.tasks[t].at == Forwarded(f) && Enabled(r, Reply(f))
            && r.flows[f].log == s.flows[f].log + [Absorbed(taken)]
            && Apply(r, Reply(f)).flows[f].log
               == r.flows[f].log + [Replied(if taken > s.flows[f].nextSequence then taken else s.flows[f].nextSequence)]
  {
  }

  /** In every run, a reply's number is not below that of any packet the flow forwarded before, and above all earlier replies. */
  lemma RepliesClearForwarded(steps: seq<Step>, f: nat)
    requires IsRun(START, steps) && Enabled(After(START, steps), Reply(f))
    requires InRange(Apply(After(START, steps), Reply(f)).flows[f].log)
    ensures var s := After(START, steps);
            var log, n := s.flows[f].log, s.flows[f].nextSequence;
            && Apply(s, Reply(f)).flows[f].log == log + [Replied(n)]
            && (forall t | 0 <= t < |s.tasks| && s.tasks[t].at == Forwarded(f) :: s.tasks[t].sequence <= n)
            && (forall i | 0 <= i < |log| && log[i].Replied? :: log[i].sequence < n)
  {
    EveryRunKeepsInv(START, steps);
    ReplyClears(After(START, steps), f);
  }

  lemma ReplyClears(s: State, f: nat)
    requires Inv(s) && Enabled(s, Reply(f)) && InRange(Apply(s, Reply(f)).flows[f].log)
    ensures var log, n := s.flows[f].log, s.flows[f].nextSequence;
            && Apply(s, Reply(f)).flows[f].log == log + [Replied(n)]
            && (forall t | 0 <= t < |s.tasks| && s.tasks[t].at == Forwarded(f) :: s.tasks[t].sequence <= n)
            && (forall i | 0 <= i < |log| && log[i].Replied? :: log[i].sequence < n)
  {
    assert LogInv(s.flows[f]) && OriginInv(s, f);
    var log, n := s.flows[f].log, s.flows[f].nextSequence;
    MarksStayBelow(log, n);
    forall t | 0 <= t < |s.tasks| && s.tasks[t].at == Forwarded(f) ensures s.tasks[t].sequence <= n {
      assert ForwardInv(s, t);
      var i :| 0 <= i < |log| && log[i] == Absorbed(s.tasks[t].sequence);
    }
  }

  lemma MarksStayBelow(log: seq<Mark>, n: u64)
    requires log != [] && log[0].Absorbed? && Faithful(log) && n == Counter(log) && InRange(log + [Replied(n)])
    ensures forall i | 0 <= i < |log| :: if log[i].Replied? then log[i].sequence < n else log[i].sequence <= n
  {
    var longer := log + [Replied(n)];
    OneMoreMark(log, Replied(n));
    OrderedIff(longer);
    NeverWrapsIff(longer);
    forall i | 0 <= i < |log| ensures if log[i].Replied? then log[i].sequence < n else log[i].sequence <= n {
      assert longer[i] == log[i] && longer[|log|] == Replied(n);
    }
  }

  /** A packet whose 4-tuple has a live flow is bound to it at the first lookup; otherwise it goes on to create one. */
  lemma PacketFindsLiveFlow(steps: seq<Step>, t: nat)
    requires IsRun(START, steps) && Enabled(After(START, steps), FastPath(t))
    ensures var s := After(START, steps);
            var at := Apply(s, FastPath(t)).tasks[t].at;
            && (forall f | 0 <= f < |s.flows| && Live(s.flows[f]) && s.flows[f].key == s.tasks[t].key :: at == Bound(f))
            && ((forall f | 0 <= f < |s.flows| && Live(s.flows[f]) :: s.flows[f].key != s.tasks[t].key) ==> at == Missed)
  {
    EveryRunKeepsInv(START, steps);
  }

  /** At the second lookup the flow that is live wins; the task's own becomes it only if there is none. */
  lemma PublishKeepsLiveFlow(steps: seq<Step>, t: nat)
    requires IsRun(START, steps) && Enabled(After(START, steps), Publish(t))
    ensures var s := After(START, steps);
            var r, own := Apply(s, Publish(t)), s.tasks[t].at.flow;
            && (forall f | 0 <= f < |s.flows| && Live(s.flows[f]) && s.flows[f].key == s.tasks[t].key ::
                  r.tasks[t].at == Bound(f) && r.flows[own].phase == Discarded)
            && ((forall f | 0 <= f < |s.flows| && Live(s.flows[f]) :: s.flows[f].key != s.tasks[t].key) ==>
                  r.tasks[t].at == Registering(own) && Enabled(r, Spawn(t)) && r.flows[own].phase == Inserted)
  {
    EveryRunKeepsInv(START, steps);
    assert TaskInv(After(START, steps), t);
  }

  /** A pump that has ended and cleaned up leaves its 4-tuple free: the next packet misses, and creates a flow of its own. */
  lemma EndedFlowMakesRoom(steps: seq<Step>, f: nat)
    requires IsRun(START, steps) && Enabled(After(START, steps), Leave(f))
    ensures var s := After(START, steps);
            var left := Apply(s, Leave(f));
            && left.flows[f].phase == Finishing && !Enabled(left, Reply(f)) && Enabled(left, Remove(f))
            && s.flows[f].key in left.flowMap && s.flows[f].key !in Apply(left, Remove(f)).flowMap
            && !Live(Apply(left, Remove(f)).flows[f])
  {
    EveryRunKeepsInv(START, steps);
    LeaveAndRemove(After(START, steps), f);
  }

  lemma LeaveAndRemove(s: State, f: nat)
    requires MapInv(s) && Enabled(s, Leave(f))
    ensures var left := Apply(s, Leave(f));
            && left.flows[f].phase == Finishing && !Enabled(left, Reply(f)) && Enabled(left, Remove(f))
            && s.flows[f].key in left.flowMap && s.flows[f].key !in Apply(left, Remove(f)).flowMap
            && !Live(Apply(left, Remove(f)).flows[f])
  {
  }

  ghost predicate NoTop(log: seq<Mark>) {
    forall i | 0 <= i < |log| :: log[i] != Replied(MAX_U64)
  }

  lemma {:induction false} CounterIsAtLeast(log: seq<Mark>, i: nat)
    requires i < |log| && log[i].Absorbed? && Faithful(log) && NoTop(log)
    ensures Counter(log) >= log[i].sequence + Replies(log, i)
  {
    var last := |log| - 1;
    if i < last {
      PrefixIsFaithful(log, last);
      CounterIsAtLeast(log[..last], i);
    }
  }

  /** Below the wrap the counter is some client number plus the replies since. */
  lemma {:induction false} CounterComesFrom(log: seq<Mark>) returns (i: nat)
    requires log != [] && log[0].Absorbed? && Faithful(log) && NoTop(log)
    ensures i < |log| && log[i].Absorbed? && Counter(log) == log[i].sequence + Replies(log, i)
  {
    var last := |log| - 1;
    if last == 0 || (log[last].Absorbed? && log[last].sequence >= Counter(log[..last])) {
      i := last;
      assert last == 0 ==> log[..last] == [];
    } else {
      PrefixIsFaithful(log, last);
      i := CounterComesFrom(log[..last]);
    }
  }

  lemma {:induction false} RepliesGrow(log: seq<Mark>, i: nat, k: nat)
    requires i < k < |log|
    ensures Replies(log, i) >= Replies(log[..k], i) + if log[k].Replied? then 1 else 0
  {
    var last := |log| - 1;
    if k < last {
      assert log[..last][..k] == log[..k];
      RepliesGrow(log[..last], i, k);
    }
  }

  lemma NeverWrapsIff(log: seq<Mark>)
    requires log != [] && log[0].Absorbed? && Faithful(log)
    ensures NeverWraps(log) <==> InRange(log)
  {
    if NeverWraps(log) {
      forall i, j | 0 <= i < j < |log| && log[i].Absorbed? && log[j].Replied?
        ensures log[i].sequence + Replies(log[..j], i) <= MAX_U64
      {
        PrefixIsFaithful(log, j);
        CounterIsAtLeast(log[..j], i);
      }
    } else {
      var a, j :| 0 <= a < j < |log| && log[j].Replied? && log[a] == Replied(MAX_U64);
      var k := FirstTop(log, a);
      PrefixIsFaithful(log, k);
      var i := CounterComesFrom(log[..k]);
      assert log[..j][..k] == log[..k];
      RepliesGrow(log[..j], i, k);
      assert log[i].sequence + Replies(log[..j], i) > MAX_U64;
    }
  }

  lemma FirstTop(log: seq<Mark>, a: nat) returns (k: nat)
    requires a < |log| && log[a] == Replied(MAX_U64)
    ensures k <= a && log[k] == Replied(MAX_U64) && NoTop(log[..k])
  {
    k := 0;
    while log[k] != Replied(MAX_U64)
      invariant k <= a && NoTop(log[..k])
      decreases a - k
    {
      k := k + 1;
    }
  }

  lemma OrderedIff(log: seq<Mark>)
    requires Faithful(log)
    ensures Ordered(log) <==> NeverWraps(log)
  {
    if NeverWraps(log) {
      forall i, j | 0 <= i < j < |log| && log[j].Replied?
        ensures if log[i].Replied? then log[i].sequence < log[j].sequence else log[i].sequence <= log[j].sequence
      {
        PrefixIsFaithful(log, j);
        CounterStaysAbove(log[..j], i);
      }
    }
  }

  lemma PrefixIsFaithful(log: seq<Mark>, j: nat)
    requires Faithful(log) && j <= |log|
    ensures Faithful(log[..j])
  {
    assert forall i | 0 <= i < j :: log[..j][..i] == log[..i];
  }

  lemma {:induction false} CounterStaysAbove(log: seq<Mark>, i: nat)
    requires i < |log| && Faithful(log)
    requires NoTop(log)
    ensures if log[i].Replied? then log[i].sequence < Counter(log) else log[i].sequence <= Counter(log)
  {
    var last := |log| - 1;
    var earlier := log[..last];
    assert forall k | 0 <= k < last :: log[..k] == earlier[..k];
    assert log[last].Replied? ==> log[last].sequence == Counter(earlier);
    if i < last {
      CounterStaysAbove(earlier, i);
    }
  }

  lemma OneStepOn(s: State, e: Step, rest: seq<Step>)
    requires Enabled(s, e) && IsRun(Apply(s, e), rest)
    ensures IsRun(s, [e] + rest) && After(s, [e] + rest) == After(Apply(s, e), rest)
  {
  }

  /** The state once a first packet with the given sequence has got its flow and pump. */
  ghost function FirstPump(key: Key, sequence: u64): (r: State) {
    State(map[key := 0], [Flow(key, 0, Pumping, sequence, [Absorbed(sequence)])], [Task(key, sequence, Bound(0))])
  }

  lemma ReachFirstPump(key: Key, sequence: u64, tail: seq<Step>) returns (steps: seq<Step>)
    requires IsRun(FirstPump(key, sequence), tail)
    ensures IsRun(START, steps) && After(START, steps) == After(FirstPump(key, sequence), tail)
  {
    var s1 := Apply(START, Arrive(key, sequence));
    var s2 := Apply(s1, FastPath(0));
    var s3 := Apply(s2, Create(0, true));
    var s4 := Apply(s3, Publish(0));
    assert Apply(s4, Spawn(0)) == FirstPump(key, sequence);
    OneStepOn(s4, Spawn(0), tail);
    steps := [Spawn(0)] + tail;
    OneStepOn(s3, Publish(0), steps);
    steps := [Publish(0)] + steps;
    OneStepOn(s2, Create(0, true), steps);
    steps := [Create(0, true)] + steps;
    OneStepOn(s1, FastPath(0), steps);
    steps := [FastPath(0)] + steps;
    OneStepOn(START, Arrive(key, sequence), steps);
    steps := [Arrive(key, sequence)] + steps;
  }

  /** The wrap is real: a client number at the top makes the second reply start over. */
  lemma TopNumberBreaksOrder(key: Key)
    ensures exists steps :: IsRun(START, steps) && |After(START, steps).flows| == 1 && !Ordered(After(START, steps).flows[0].log)
  {
    var s := FirstPump(key, MAX_U64);
    OneStepOn(Apply(s, Reply(0)), Reply(0), []);
    OneStepOn(s, Reply(0), [Reply(0)] + []);
    var log := After(s, [Reply(0)] + ([Reply(0)] + [])).flows[0].log;
    assert log == [Absorbed(MAX_U64), Replied(MAX_U64), Replied(0)];
    assert log[1].Replied? && log[2].Replied? && log[1].sequence > log[2].sequence;
    var steps := ReachFirstPump(key, MAX_U64, [Reply(0)] + ([Reply(0)] + []));
  }
}
