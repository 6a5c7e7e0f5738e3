/**
 The pending and active connection tables of the TCP forwarder's poll thread. Which socket
 handle a new socket gets, which sockets are established or closed, and which packets the
 user-space TCP stack emits are inputs: the tables must stay sound for any of them.
 */
module NatTables {
  import opened Octets
  import opened Packets
  import opened Session
  import opened Wrappers

  type Handle = nat

  /** What a packet back to the client can be matched on: it does not name the original destination. */
  datatype Tuple = Tuple(clientIp: Ipv4, clientPort: u16, serverPort: u16)

  datatype Conn = Conn(tuple: Tuple, original: Ipv4)

  datatype Pending = Pending(handle: Handle, conn: Conn)

  // ---- Looking up the original destination ----------------------------------

  datatype Lookup = NoMatch | Agreed(original: Ipv4) | Ambiguous

  /** The entries for `t` are none, or all name one destination, or disagree. */
  ghost predicate Answers(conns: set<Conn>, t: Tuple, l: Lookup) {
    match l
    case NoMatch => forall c | c in conns :: c.tuple != t
    case Agreed(ip) => Conn(t, ip) in conns && forall c | c in conns && c.tuple == t :: c.original == ip
    case Ambiguous => exists a, b :: a in conns && b in conns && a.tuple == t == b.tuple && a.original != b.original
  }

  /** There is only one right answer, whatever order the table is scanned in. */
  lemma AnswerIsUnique(conns: set<Conn>, t: Tuple, l: Lookup, m: Lookup)
    requires Answers(conns, t, l) && Answers(conns, t, m)
    ensures l == m
  {
  }

  /** The scan loop's update for one entry. */
  function Scan(l: Lookup, c: Conn, t: Tuple): (r: Lookup) {
    if c.tuple != t || l.Ambiguous? then l
    else if l.NoMatch? then Agreed(c.original)
    else if l.original == c.original then l
    else Ambiguous
  }

  lemma ScanExtends(conns: set<Conn>, c: Conn, t: Tuple, l: Lookup)
    requires Answers(conns, t, l)
    ensures Answers(conns + {c}, t, Scan(l, c, t))
  {
  }

  ghost function PendingConns(ps: seq<Pending>): (r: set<Conn>) {
    set p | p in ps :: p.conn
  }

  // ---- Promotion of established connections ---------------------------------

  /** Some active entry has the same tuple and another destination. */
  ghost predicate Conflicts(active: map<Handle, Conn>, c: Conn) {
    exists h :: h in active && active[h].tuple == c.tuple && active[h].original != c.original
  }

  /** Active entries with the same tuple agree on the destination. */
  ghost predicate Agreement(active: map<Handle, Conn>) {
    forall h, g | h in active && g in active && active[h].tuple == active[g].tuple :: active[h].original == active[g].original
  }

  /** The pending entries whose sockets are not established, in order. */
  ghost function Waiting(ps: seq<Pending>, established: set<Handle>): (r: seq<Pending>) {
    if ps == [] then []
    else (if ps[0].handle in established then [] else [ps[0]]) + Waiting(ps[1..], established)
  }

  /** The active table after promoting the established entries, last to first, refusing conflicts. */
  ghost function Admit(active: map<Handle, Conn>, ps: seq<Pending>, established: set<Handle>): (r: map<Handle, Conn>) {
    if ps == [] then active
    else
      var later := Admit(active, ps[1..], established);
      if ps[0].handle in established && !Conflicts(later, ps[0].conn) then later[ps[0].handle := ps[0].conn] else later
  }

  /** How many established entries that promotion refuses. */
  ghost function Refused(active: map<Handle, Conn>, ps: seq<Pending>, established: set<Handle>): (r: nat) {
    if ps == [] then 0
    else
      Refused(active, ps[1..], established)
      + if ps[0].handle in established && Conflicts(Admit(active, ps[1..], established), ps[0].conn) then 1 else 0
  }

  ghost predicate DistinctHandles(ps: seq<Pending>) {
    forall i, j | 0 <= i < j < |ps| :: ps[i].handle != ps[j].handle
  }

  ghost function Handles(ps: seq<Pending>): (r: set<Handle>) {
    set p | p in ps :: p.handle
  }

  /**
   Promotion keeps every active connection and the agreement between them; an established
   entry is refused exactly when the table then holds a conflicting one.
   */
  lemma {:induction false} AdmitIsSound(active: map<Handle, Conn>, ps: seq<Pending>, established: set<Handle>)
    requires Agreement(active) && DistinctHandles(ps) && Handles(ps) !! active.Keys
    ensures var after := Admit(active, ps, established);
            && Agreement(after)
            && active.Keys <= after.Keys <= active.Keys + (Handles(ps) * established)
            && (forall h | h in active :: after[h] == active[h])
            && (forall p | p in ps && p.handle in established ::
                  if Conflicts(after, p.conn) then p.handle !in after else p.handle in after && after[p.handle] == p.conn)
  {
    if ps != [] {
      var p, rest := ps[0], ps[1..];
      assert forall i | 0 <= i < |rest| :: rest[i] == ps[i + 1];
      assert Handles(rest) <= Handles(ps) && p.handle in Handles(ps);
      AdmitIsSound(active, rest, established);
      var later, after := Admit(active, rest, established), Admit(active, ps, established);
      assert p.handle !in Handles(rest);
      forall q | q in ps && q.handle in established
        ensures if Conflicts(after, q.conn) then q.handle !in after else q.handle in after && after[q.handle] == q.conn
      {
        AdmitStep(later, after, p, q);
      }
    }
  }

  lemma AdmitStep(later: map<Handle, Conn>, after: map<Handle, Conn>, p: Pending, q: Pending)
    requires Agreement(later) && p.handle !in later
    requires after == later || (!Conflicts(later, p.conn) && after == later[p.handle := p.conn])
    requires q != p ==> q.handle != p.handle
    requires q != p ==> if Conflicts(later, q.conn) then q.handle !in later else q.handle in later && later[q.handle] == q.conn
    requires q == p ==> (after == later <==> Conflicts(later, p.conn))
    ensures if Conflicts(after, q.conn) then q.handle !in after else q.handle in after && after[q.handle] == q.conn
  {
    if after != later {
      assert after.Keys == later.Keys + {p.handle};
      if q == p {
        assert !Conflicts(after, p.conn);
      } else if Conflicts(later, q.conn) {
        var h :| h in later && later[h].tuple == q.conn.tuple && later[h].original != q.conn.original;
        assert after[h] == later[h];
      }
    }
  }

  /** A stretch with nothing established is kept as it is and promotes nothing. */
  lemma {:induction false} SkipUnestablished(active: map<Handle, Conn>, ps: seq<Pending>, n: nat, established: set<Handle>)
    requires n <= |ps| && forall i | 0 <= i < n :: ps[i].handle !in established
    ensures Waiting(ps, established) == ps[..n] + Waiting(ps[n..], established)
    ensures Admit(active, ps, established) == Admit(active, ps[n..], established)
  {
    if n > 0 {
      SkipUnestablished(active, ps[1..], n - 1, established);
      assert ps[1..][n - 1..] == ps[n..];
      assert ps[..n] == [ps[0]] + ps[1..][..n - 1];
    }
  }

  /** Removing the last established entry not yet removed: the one at `idx`, with none up to `boundary`. */
  lemma RemoveStep(before: seq<Pending>, idx: nat, boundary: nat, established: set<Handle>)
    requires idx < boundary <= |before| && before[idx].handle in established
    requires forall i | idx < i < boundary :: before[i].handle !in established
    ensures var now := before[..boundary] + Waiting(before[boundary..], established);
            && now[idx] == before[idx]
            && now[..idx] + now[idx + 1..] == before[..idx] + Waiting(before[idx..], established)
  {
    var tail, n := before[idx + 1..], boundary - idx - 1;
    SkipUnestablished(map[], tail, n, established);
    assert tail[n..] == before[boundary..];
    assert tail[..n] == before[idx + 1..boundary];
    assert before[idx..][1..] == tail;
    CutOut(before, idx, boundary, Waiting(before[boundary..], established));
  }

  lemma CutOut(before: seq<Pending>, idx: nat, boundary: nat, rest: seq<Pending>)
    requires idx < boundary <= |before|
    ensures var now := before[..boundary] + rest;
            now[..idx] + now[idx + 1..] == before[..idx] + (before[idx + 1..boundary] + rest)
  {
  }

  /** What that removal means for the active table. */
  lemma RemoveAdmits(active: map<Handle, Conn>, before: seq<Pending>, idx: nat, boundary: nat, established: set<Handle>)
    requires idx < boundary <= |before| && before[idx].handle in established
    requires forall i | idx < i < boundary :: before[i].handle !in established
    ensures var later := Admit(active, before[boundary..], established);
            Admit(active, before[idx..], established)
            == if Conflicts(later, before[idx].conn) then later else later[before[idx].handle := before[idx].conn]
  {
    var tail, n := before[idx + 1..], boundary - idx - 1;
    SkipUnestablished(active, tail, n, established);
    assert tail[n..] == before[boundary..];
    assert before[idx..][1..] == tail;
  }

  lemma {:induction false} SkipCountsNone(active: map<Handle, Conn>, ps: seq<Pending>, n: nat, established: set<Handle>)
    requires n <= |ps| && forall i | 0 <= i < n :: ps[i].handle !in established
    ensures Refused(active, ps, established) == Refused(active, ps[n..], established)
  {
    if n > 0 {
      SkipCountsNone(active, ps[1..], n - 1, established);
      assert ps[1..][n - 1..] == ps[n..];
    }
  }

  lemma RemoveCounts(active: map<Handle, Conn>, before: seq<Pending>, idx: nat, boundary: nat, established: set<Handle>)
    requires idx < boundary <= |before| && before[idx].handle in established
    requires forall i | idx < i < boundary :: before[i].handle !in established
    ensures Refused(active, before[idx..], established)
            == Refused(active, before[boundary..], established)
               + if Conflicts(Admit(active, before[boundary..], established), before[idx].conn) then 1 else 0
  {
    var tail, n := before[idx + 1..], boundary - idx - 1;
    SkipCountsNone(active, tail, n, established);
    SkipUnestablished(active, tail, n, established);
    assert tail[n..] == before[boundary..];
    assert before[idx..][1..] == tail;
  }

  /** `saturating_add`. */
  function SaturatingAdd(n: u64, k: nat): (r: u64) {
    if n + k > MAX_U64 then MAX_U64 else n + k
  }

  // ---- Unanimity over whole runs --------------------------------------------

  datatype Tables = Tables(active: map<Handle, Conn>, pending: seq<Pending>)

  ghost function Entries(t: Tables): (r: set<Conn>) {
    t.active.Values + PendingConns(t.pending)
  }

  /** Entries of one tuple name one destination. */
  ghost predicate Unanimous(conns: set<Conn>) {
    forall c, d | c in conns && d in conns && c.tuple == d.tuple :: c.original == d.original
  }

  /** No entry of either table contradicts `conn`. */
  ghost predicate Fits(t: Tables, conn: Conn) {
    forall c | c in Entries(t) && c.tuple == conn.tuple :: c.original == conn.original
  }

  /** What changes the tables: a command, the promotion phase or the removal phase. */
  datatype Command =
    | Create(conn: Conn, listening: bool, handle: Handle)
    | Promotion(established: set<Handle>)
    | Removal(closed: set<Handle>)

  ghost function Apply(t: Tables, c: Command): (r: Tables) {
    match c
    case Create(conn, listening, handle) => if listening then t.(pending := t.pending + [Pending(handle, conn)]) else t
    case Promotion(established) => Tables(Admit(t.active, t.pending, established), Waiting(t.pending, established))
    case Removal(closed) => t.(active := t.active - closed)
  }

  /** A new connection may be entered without breaking unanimity. */
  ghost predicate Meets(t: Tables, c: Command) {
    c.Create? && c.listening ==> Fits(t, c.conn)
  }

  /** A new socket keeps the tables unanimous exactly when it does not listen or no entry contradicts it. */
  lemma CreateKeepsUnanimityIff(t: Tables, c: Command)
    requires Unanimous(Entries(t)) && c.Create?
    ensures Unanimous(Entries(Apply(t, c))) <==> Meets(t, c)
  {
    if c.listening {
      EntriesGrow(t, c);
      var after := Entries(Apply(t, c));
      assert c.conn in after;
      if Unanimous(after) {
        forall d | d in Entries(t) && d.tuple == c.conn.tuple ensures d.original == c.conn.original {
          assert d in after;
        }
      }
    }
  }

  lemma EntriesGrow(t: Tables, c: Command)
    requires c.Create? && c.listening
    ensures Entries(Apply(t, c)) == Entries(t) + {c.conn}
  {
    var ps := Apply(t, c).pending;
    assert ps[|t.pending|] == Pending(c.handle, c.conn);
    assert forall p :: p in ps <==> p in t.pending || p == Pending(c.handle, c.conn);
    assert PendingConns(ps) == PendingConns(t.pending) + {c.conn};
  }

  /** Promotion and removal only move and drop entries. */
  lemma EntriesShrink(t: Tables, c: Command)
    requires !c.Create?
    ensures Entries(Apply(t, c)) <= Entries(t)
  {
    if c.Promotion? {
      AdmittedWereEntries(t.active, t.pending, c.established);
      WaitingWerePending(t.pending, c.established);
    }
  }

  lemma {:induction false} AdmittedWereEntries(active: map<Handle, Conn>, ps: seq<Pending>, established: set<Handle>)
    ensures Admit(active, ps, established).Values <= active.Values + PendingConns(ps)
  {
    if ps != [] {
      AdmittedWereEntries(active, ps[1..], established);
      assert ps[0] in ps && PendingConns(ps[1..]) <= PendingConns(ps);
      ValuesGrow(Admit(active, ps[1..], established), ps[0].handle, ps[0].conn);
    }
  }

  lemma ValuesGrow(active: map<Handle, Conn>, h: Handle, c: Conn)
    ensures active[h := c].Values <= active.Values + {c}
  {
  }

  lemma {:induction false} WaitingWerePending(ps: seq<Pending>, established: set<Handle>)
    ensures forall p | p in Waiting(ps, established) :: p in ps
  {
    if ps != [] {
      WaitingWerePending(ps[1..], established);
    }
  }

  /** The tables of a new thread after some commands. */
  ghost function TablesAfter(commands: seq<Command>): (r: Tables) {
    if commands == [] then Tables(map[], [])
    else Apply(TablesAfter(commands[..|commands| - 1]), commands[|commands| - 1])
  }

  /** Every new socket of the run met the guard when it was created. */
  ghost predicate Guarded(commands: seq<Command>) {
    commands == [] ||
    var earlier := commands[..|commands| - 1];
    Guarded(earlier) && Meets(TablesAfter(earlier), commands[|commands| - 1])
  }

  /** The tables were unanimous all along. */
  ghost predicate AlwaysUnanimous(commands: seq<Command>) {
    Unanimous(Entries(TablesAfter(commands))) && (commands == [] || AlwaysUnanimous(commands[..|commands| - 1]))
  }

  lemma {:induction false} AlwaysUnanimousIff(commands: seq<Command>)
    ensures AlwaysUnanimous(commands) <==> Guarded(commands)
  {
    if commands != [] {
      var earlier, c := commands[..|commands| - 1], commands[|commands| - 1];
      AlwaysUnanimousIff(earlier);
      if Guarded(earlier) {
        UnanimousNextIff(TablesAfter(earlier), c);
      }
    }
  }

  lemma UnanimousNextIff(t: Tables, c: Command)
    requires Unanimous(Entries(t))
    ensures Unanimous(Entries(Apply(t, c))) <==> Meets(t, c)
  {
    if c.Create? {
      CreateKeepsUnanimityIff(t, c);
    } else {
      EntriesShrink(t, c);
    }
  }

  /** Which entries a packet is matched against: the active ones, or failing any the pending ones. */
  ghost predicate Resolves(tables: Tables, t: Tuple, l: Lookup) {
    if Answers(tables.active.Values, t, NoMatch) then Answers(PendingConns(tables.pending), t, l)
    else Answers(tables.active.Values, t, l)
  }

  /** Over unanimous tables, what a packet is matched to is what all entries of both tables say, and never ambiguous. */
  lemma UnanimousAnswer(tables: Tables, t: Tuple, l: Lookup)
    requires Unanimous(Entries(tables)) && Resolves(tables, t, l)
    ensures Answers(Entries(tables), t, l) && !l.Ambiguous?
  {
    match l
    case NoMatch =>
    case Agreed(ip) => assert Conn(t, ip) in Entries(tables);
    case Ambiguous =>
  }

  // ---- The poll thread ------------------------------------------------------

  /** The fields a packet from the TCP stack is matched on, read at fixed offsets; `None` if it is dropped unread. */
  function TupleOf(pkt: seq<byte>): (r: Option<Tuple>) {
    if |pkt| < 24 || Version(pkt) != 4 then None
    else Some(Tuple(pkt[16..20], U16At(pkt, 22), U16At(pkt, 20)))
  }

  /** Which packets are dropped unread, and where the fields are: destination, then source port, then destination port. */
  lemma TupleOfFields(pkt: seq<byte>)
    ensures TupleOf(pkt).None? <==> |pkt| < 24 || pkt[0] / 16 != 4
    ensures forall head, clientIp: Ipv4, serverPort: u16, clientPort: u16, rest |
              |head| == 16 && head[0] / 16 == 4 && pkt == head + clientIp + Bytes16(serverPort) + Bytes16(clientPort) + rest ::
              TupleOf(pkt) == Some(Tuple(clientIp, clientPort, serverPort))
  {
    forall head, clientIp: Ipv4, serverPort: u16, clientPort: u16, rest |
      |head| == 16 && head[0] / 16 == 4 && pkt == head + clientIp + Bytes16(serverPort) + Bytes16(clientPort) + rest
      ensures TupleOf(pkt) == Some(Tuple(clientIp, clientPort, serverPort))
    {
      assert pkt[0] == head[0] && pkt[16..20] == clientIp && pkt[20..22] == Bytes16(serverPort) && pkt[22..24] == Bytes16(clientPort);
      assert pkt[20] == pkt[20..22][0] && pkt[21] == pkt[20..22][1] && pkt[22] == pkt[22..24][0] && pkt[23] == pkt[22..24][1];
    }
  }

  class PollThread {
    var pending: seq<Pending>
    var active: map<Handle, Conn>
    var promoted: set<Handle>
    /** Handles in the socket set. */
    var sockets: set<Handle>
    /** The statistics table read by the status page. */
    var flows: map<Handle, Conn>
    var globalSeq: u64
    var ambiguousDrops: u64
    /** Every frame sent to the client. */
    ghost var sent: seq<Frame>
    /** Everything that has changed the tables. */
    ghost var commands: seq<Command>

    ghost predicate Valid()
      reads this
    {
      && DistinctHandles(pending) && Handles(pending) !! active.Keys
      && sockets == Handles(pending) + active.Keys
      && flows == active && promoted == active.Keys
      && Agreement(active)
      && globalSeq == |sent| % 0x1_0000_0000_0000_0000
      && Numbered(0, sent)
    }

    ghost function View(): (r: Tables)
      reads this`active, this`pending
    {
      Tables(active, pending)
    }

    /** The tables are where the commands so far lead. */
    ghost predicate Recorded()
      reads this`active, this`pending, this`commands
    {
      View() == TablesAfter(commands)
    }

    constructor ()
      ensures Valid() && Recorded() && sent == [] && commands == [] && sockets == {} && ambiguousDrops == 0
      ensures View() == Tables(map[], [])
    {
      pending, active, promoted, sockets, flows := [], map[], {}, {}, map[];
      globalSeq, ambiguousDrops := 0, 0;
      sent, commands := [], [];
    }

    /** A `CreateTcpSocket` command; the socket set may reuse the handle of a removed socket. */
    method CreateTcpSocket(conn: Conn, listening: bool, handle: Handle)
      requires Valid() && Recorded() && handle !in sockets
      modifies this`pending, this`sockets, this`commands
      ensures Valid() && Recorded() && commands == old(commands) + [Create(conn, listening, handle)]
      ensures pending == old(pending) + if listening then [Pending(handle, conn)] else []
    {
      Record(Create(conn, listening, handle));
      if listening {
        sockets := sockets + {handle};
        pending := pending + [Pending(handle, conn)];
        assert Handles(pending) == Handles(old(pending)) + {handle} by {
          assert pending[|pending| - 1] in pending;
          assert forall p :: p in pending <==> p in old(pending) || p == Pending(handle, conn);
        }
      }
    }

    method LookupActive(t: Tuple) returns (l: Lookup)
      ensures Answers(active.Values, t, l)
    {
      l := NoMatch;
      var left := active.Keys;
      ghost var seen: set<Conn> := {};
      while left != {} && !l.Ambiguous?
        invariant left <= active.Keys
        invariant seen <= active.Values
        invariant forall h | h in active && h !in left :: active[h] in seen
        invariant Answers(seen, t, l)
        decreases left
      {
        var h :| h in left;
        ScanExtends(seen, active[h], t, l);
        l := Scan(l, active[h], t);
        seen := seen + {active[h]};
        left := left - {h};
      }
      assert left == {} ==> seen == active.Values;
    }

    method LookupPending(t: Tuple) returns (l: Lookup)
      ensures Answers(PendingConns(pending), t, l)
    {
      l := NoMatch;
      var i := 0;
      while i < |pending| && !l.Ambiguous?
        invariant i <= |pending|
        invariant Answers(PendingConns(pending[..i]), t, l)
      {
        ScanExtends(PendingConns(pending[..i]), pending[i].conn, t, l);
        assert PendingConns(pending[..i + 1]) == PendingConns(pending[..i]) + {pending[i].conn} by {
          assert pending[..i + 1] == pending[..i] + [pending[i]];
        }
        l := Scan(l, pending[i].conn, t);
        i := i + 1;
      }
      assert pending[..|pending|] == pending;
    }

    /**
     One packet from the TCP stack. It is sent exactly when one destination is agreed, with that
     destination as its source and the next sequence number; anything else uses no number. The
     active table never answers `Ambiguous`, so only a pending ambiguity is ever counted. If every new
     socket so far met the guard, the destination is what all entries of both tables name.
     */
    method SendToClient(pkt: seq<byte>)
      requires Valid() && Recorded() && (|pkt| >= 20 ==> HeaderLen(pkt) <= |pkt|)
      modifies this`globalSeq, this`ambiguousDrops, this`sent
      ensures Valid()
      ensures forall t, l | TupleOf(pkt) == Some(t) && Resolves(View(), t, l) ::
                sent == old(sent) + if l.Agreed? then [Frame(Header(0, old(globalSeq), 0), Rewritten(pkt, l.original))] else []
      ensures forall t, l | TupleOf(pkt) == Some(t) && Resolves(View(), t, l) ::
                && ambiguousDrops == (if l.Ambiguous? then SaturatingAdd(old(ambiguousDrops), 1) else old(ambiguousDrops))
                && (l.Ambiguous? ==> Answers(active.Values, t, NoMatch))
      ensures TupleOf(pkt).None? ==> sent == old(sent) && ambiguousDrops == old(ambiguousDrops)
      ensures Guarded(commands) ==> forall t, l | TupleOf(pkt) == Some(t) && Resolves(View(), t, l) ::
                Answers(Entries(View()), t, l) && !l.Ambiguous?
    {
      GuardedAnswers();
      var tuple := TupleOf(pkt);
      if tuple.None? {
        return;
      }
      var l := Resolve(tuple.value);
      if l.Ambiguous? {
        ambiguousDrops := SaturatingAdd(ambiguousDrops, 1);
      } else if l.Agreed? {
        Emit(pkt, l.original);
      }
    }

    lemma GuardedAnswers()
      requires Recorded()
      ensures Guarded(commands) ==> forall t, l | Resolves(View(), t, l) :: Answers(Entries(View()), t, l) && !l.Ambiguous?
    {
      AlwaysUnanimousIff(commands);
      if Guarded(commands) {
        forall t, l | Resolves(View(), t, l) ensures Answers(Entries(View()), t, l) && !l.Ambiguous? {
          UnanimousAnswer(View(), t, l);
        }
      }
    }

    ghost method Record(c: Command)
      requires Recorded()
      modifies this`commands
      ensures commands == old(commands) + [c] && TablesAfter(commands) == Apply(View(), c)
    {
      commands := commands + [c];
      assert commands[..|commands| - 1] == old(commands);
    }

    /** The active table first, then the pending list if nothing matched. */
    method Resolve(t: Tuple) returns (l: Lookup)
      requires Valid()
      ensures forall m :: Resolves(View(), t, m) <==> m == l
      ensures l.Ambiguous? ==> Answers(active.Values, t, NoMatch)
    {
      l := LookupActive(t);
      AgreementLeavesNoAmbiguity(active, t, l);
      ghost var inActive := l;
      if l.NoMatch? {
        l := LookupPending(t);
      }
      forall m ensures Resolves(View(), t, m) <==> m == l {
        if Answers(active.Values, t, NoMatch) {
          AnswerIsUnique(active.Values, t, inActive, NoMatch);
          if Resolves(View(), t, m) { AnswerIsUnique(PendingConns(pending), t, l, m); }
        } else if Resolves(View(), t, m) {
          AnswerIsUnique(active.Values, t, l, m);
        }
      }
    }

    method Emit(pkt: seq<byte>, original: Ipv4)
      requires Valid() && (|pkt| >= 20 ==> HeaderLen(pkt) <= |pkt|)
      modifies this`globalSeq, this`sent
      ensures Valid()
      ensures sent == old(sent) + [Frame(Header(0, old(globalSeq), 0), Rewritten(pkt, original))]
    {
      var buf := new byte[|pkt|](i requires 0 <= i < |pkt| => pkt[i]);
      assert buf[..] == pkt;
      RewriteSrcIpOutbound(buf, original);
      var frame := Frame(Header(0, globalSeq, 0), buf[..]);
      CountsOn(|sent|);
      globalSeq := WrappingSucc(globalSeq);
      sent := sent + [frame];
    }

    /** The promotion phase: collect the indices of established entries, then remove them highest first. */
    method PromoteEstablished(established: set<Handle>)
      requires Valid() && Recorded()
      modifies this`pending, this`active, this`promoted, this`sockets, this`flows, this`ambiguousDrops, this`commands
      ensures Valid() && Recorded() && commands == old(commands) + [Promotion(established)]
      ensures pending == Waiting(old(pending), established)
      ensures active == Admit(old(active), old(pending), established)
      ensures ambiguousDrops == SaturatingAdd(old(ambiguousDrops), Refused(old(active), old(pending), established))
    {
      Record(Promotion(established));
      PromoteAll(established);
    }

    method PromoteAll(established: set<Handle>)
      requires Valid()
      modifies this`pending, this`active, this`promoted, this`sockets, this`flows, this`ambiguousDrops
      ensures Valid()
      ensures pending == Waiting(old(pending), established)
      ensures active == Admit(old(active), old(pending), established)
      ensures ambiguousDrops == SaturatingAdd(old(ambiguousDrops), Refused(old(active), old(pending), established))
    {
      var newly := ScanEstablished(established);
      ghost var before := pending;
      var k, boundary := |newly|, |pending|;
      assert before[boundary..] == [] && before[..boundary] == before;
      while k > 0
        invariant Valid() && 0 <= k <= |newly| && 0 <= boundary <= |before|
        invariant boundary == if k == |newly| then |before| else newly[k]
        invariant pending == before[..boundary] + Waiting(before[boundary..], established)
        invariant active == Admit(old(active), before[boundary..], established)
        invariant ambiguousDrops == SaturatingAdd(old(ambiguousDrops), Refused(old(active), before[boundary..], established))
      {
        k := k - 1;
        var idx := newly[k];
        forall i | idx < i < boundary ensures before[i].handle !in established {
          NoneBetween(newly, k, boundary, i, |before|);
        }
        RemoveStep(before, idx, boundary, established);
        RemoveAdmits(old(active), before, idx, boundary, established);
        RemoveCounts(old(active), before, idx, boundary, established);
        Promote(idx);
        boundary := idx;
      }
      forall i | 0 <= i < boundary ensures before[i].handle !in established {
        NoneBetween(newly, -1, boundary, i, |before|);
      }
      SkipUnestablished(old(active), before, boundary, established);
      SkipCountsNone(old(active), before, boundary, established);
    }

    method ScanEstablished(established: set<Handle>) returns (newly: seq<nat>)
      requires Valid()
      ensures forall i | 0 <= i < |newly| :: newly[i] < |pending|
      ensures forall i, j | 0 <= i < j < |newly| :: newly[i] < newly[j]
      ensures forall i | 0 <= i < |pending| :: i in newly <==> pending[i].handle in established
    {
      newly := [];
      for idx := 0 to |pending|
        invariant forall i | 0 <= i < |newly| :: newly[i] < idx
        invariant forall i, j | 0 <= i < j < |newly| :: newly[i] < newly[j]
        invariant forall i | 0 <= i < idx :: i in newly <==> pending[i].handle in established
      {
        assert pending[idx].handle in Handles(pending);
        if pending[idx].handle !in promoted && pending[idx].handle in established {
          newly := newly + [idx];
        }
      }
    }

    /** Takes entry `idx` out of the pending list and activates it, or drops its socket on a conflict. */
    method Promote(idx: nat)
      requires Valid() && idx < |pending|
      modifies this`pending, this`active, this`promoted, this`sockets, this`flows, this`ambiguousDrops
      ensures Valid()
      ensures pending == old(pending[..idx] + pending[idx + 1..])
      ensures active == old(if Conflicts(active, pending[idx].conn) then active else active[pending[idx].handle := pending[idx].conn])
      ensures ambiguousDrops == old(if Conflicts(active, pending[idx].conn) then SaturatingAdd(ambiguousDrops, 1) else ambiguousDrops)
    {
      var p := pending[idx];
      ghost var handles := Handles(pending);
      pending := pending[..idx] + pending[idx + 1..];
      HandlesWithout(old(pending), idx);
      assert p in old(pending) && p.handle in handles;
      var conflict := exists h | h in active :: active[h].tuple == p.conn.tuple && active[h].original != p.conn.original;
      if conflict {
        ambiguousDrops := SaturatingAdd(ambiguousDrops, 1);
        sockets := sockets - {p.handle};
        promoted := promoted - {p.handle};
        return;
      }
      promoted := promoted + {p.handle};
      flows := flows[p.handle := p.conn];
      active := active[p.handle := p.conn];
    }

    /** The removal phase, for the handles whose sockets are neither active nor listening. */
    method RemoveClosed(closed: set<Handle>)
      requires Valid() && Recorded()
      modifies this`active, this`promoted, this`sockets, this`flows, this`commands
      ensures Valid() && Recorded() && commands == old(commands) + [Removal(closed)]
      ensures active == old(active) - closed
    {
      Record(Removal(closed));
      RemoveAll(closed);
    }

    method RemoveAll(closed: set<Handle>)
      requires Valid()
      modifies this`active, this`promoted, this`sockets, this`flows
      ensures Valid() && active == old(active) - closed
    {
      var left := set h | h in active && h in closed;
      while left != {}
        invariant Valid()
        invariant left <= active.Keys && left <= closed
        invariant active == old(active) - (closed - left)
        decreases left
      {
        var h :| h in left;
        Close(h);
        left := left - {h};
      }
      promoted := set h | h in promoted && h in active;
    }

    method Close(h: Handle)
      requires Valid() && h in active
      modifies this`active, this`promoted, this`sockets, this`flows
      ensures Valid() && active == old(active) - {h}
    {
      active := active - {h};
      promoted := promoted - {h};
      sockets := sockets - {h};
      flows := flows - {h};
    }
  }

  /**
   The guard is needed: two connections from one client port to one server port, the second created after the
   first was promoted. The packet goes out under the first host's address while the second is pending.
   */
  method SentBesidePending(t: Tuple, a: Ipv4, b: Ipv4, pkt: seq<byte>) returns (poll: PollThread)
    requires a != b && TupleOf(pkt) == Some(t) && HeaderLen(pkt) <= |pkt|
    ensures poll.Valid() && poll.Recorded() && !Guarded(poll.commands)
    ensures poll.sent == [Frame(Header(0, 0, 0), Rewritten(pkt, a))]
    ensures poll.pending == [Pending(1, Conn(t, b))] && Answers(Entries(poll.View()), t, Ambiguous)
  {
    poll := OneBesideAnother(Conn(t, a), Conn(t, b));
    SecondIsHidden(t, a, b);
    assert poll.globalSeq == 0;
    poll.SendToClient(pkt);
  }

  method OneBesideAnother(first: Conn, second: Conn) returns (poll: PollThread)
    requires first.tuple == second.tuple && first.original != second.original
    ensures fresh(poll) && poll.Valid() && poll.Recorded() && !Guarded(poll.commands) && poll.sent == []
    ensures poll.View() == Tables(map[0 := first], [Pending(1, second)])
  {
    poll := OnePromoted(first);
    SecondIsHidden(first.tuple, first.original, second.original);
    OneUnguarded(poll.commands, Create(second, true, 1));
    assert poll.sockets == {0};
    poll.CreateTcpSocket(second, true, 1);
  }

  method OnePromoted(conn: Conn) returns (poll: PollThread)
    ensures fresh(poll) && poll.Valid() && poll.Recorded() && poll.sent == []
    ensures poll.View() == Tables(map[0 := conn], [])
  {
    poll := new PollThread();
    poll.CreateTcpSocket(conn, true, 0);
    assert poll.pending == [Pending(0, conn)] && poll.active == map[];
    FirstIsPromoted(conn);
    poll.PromoteEstablished({0});
  }

  lemma FirstIsPromoted(c: Conn)
    ensures Admit(map[], [Pending(0, c)], {0}) == map[0 := c] && Waiting([Pending(0, c)], {0}) == []
  {
    assert [Pending(0, c)][1..] == [];
  }

  lemma SecondIsHidden(t: Tuple, a: Ipv4, b: Ipv4)
    requires a != b
    ensures !Fits(Tables(map[0 := Conn(t, a)], []), Conn(t, b))
    ensures var tables := Tables(map[0 := Conn(t, a)], [Pending(1, Conn(t, b))]);
            Resolves(tables, t, Agreed(a)) && Answers(Entries(tables), t, Ambiguous)
  {
    var active: map<Handle, Conn>, ps := map[0 := Conn(t, a)], [Pending(1, Conn(t, b))];
    assert active[0] in active.Values;
    assert Conn(t, a) in Entries(Tables(active, []));
    assert ps[0] in ps && Conn(t, b) in PendingConns(ps);
    assert Conn(t, a) in Entries(Tables(active, ps)) && Conn(t, b) in Entries(Tables(active, ps));
  }

  lemma OneUnguarded(commands: seq<Command>, c: Command)
    requires !Meets(TablesAfter(commands), c)
    ensures !Guarded(commands + [c])
  {
    assert (commands + [c])[..|commands|] == commands;
  }

  lemma AgreementLeavesNoAmbiguity(active: map<Handle, Conn>, t: Tuple, l: Lookup)
    requires Agreement(active) && Answers(active.Values, t, l)
    ensures !l.Ambiguous?
  {
  }

  lemma HandlesWithout(ps: seq<Pending>, idx: nat)
    requires idx < |ps| && DistinctHandles(ps)
    ensures DistinctHandles(ps[..idx] + ps[idx + 1..])
    ensures Handles(ps[..idx] + ps[idx + 1..]) == Handles(ps) - {ps[idx].handle}
  {
  }

  /** No index of an ascending list lies strictly between two neighbours. */
  lemma NoneBetween(newly: seq<nat>, k: int, boundary: nat, i: nat, end: nat)
    requires -1 <= k < |newly| && forall a, b | 0 <= a < b < |newly| :: newly[a] < newly[b]
    requires boundary == if k + 1 == |newly| then end else newly[k + 1]
    requires (k >= 0 ==> newly[k] < i) && i < boundary <= end
    ensures i !in newly
  {
  }
}
