/**
 The session layer: sequenced frames, their wire form, and the reorder buffer that
 turns arrivals in any order back into the sender's order.
 */
module Session {
  import opened Octets
  import opened Wrappers

  const HEADER_LEN := 16

  datatype Header = Header(connectionId: u32, sequence: u64, flags: u32)
  datatype Frame = Frame(header: Header, payload: seq<byte>)

  datatype SessionError =
    | ConnectionMismatch(expected: u32, found: u32)
    | StaleSequence(expectedSequence: u64, foundSequence: u64)

  // ---- Wire form ------------------------------------------------------------

  /** `SessionFrame::encode`. */
  function Encode(f: Frame): (r: seq<byte>)
    ensures |r| == HEADER_LEN + |f.payload|
  {
    ToBigEndian(f.header.connectionId, 4) + ToBigEndian(f.header.sequence, 8) + ToBigEndian(f.header.flags, 4) + f.payload
  }

  /** `SessionFrame::decode`; the error carries the length found. */
  function Decode(raw: seq<byte>): (r: Result<Frame, nat>) {
    if |raw| < HEADER_LEN then Err(|raw|)
    else
      Capacities();
      Ok(Frame(Header(FromBigEndian(raw[..4]), FromBigEndian(raw[4..12]), FromBigEndian(raw[12..16])), raw[16..]))
  }

  lemma DecodeEncoded(f: Frame)
    ensures Decode(Encode(f)) == Ok(f)
  {
    Capacities();
    DecodeEncode(f.header.connectionId, 4);
    DecodeEncode(f.header.sequence, 8);
    DecodeEncode(f.header.flags, 4);
    var raw := Encode(f);
    assert raw[..4] == ToBigEndian(f.header.connectionId, 4);
    assert raw[4..12] == ToBigEndian(f.header.sequence, 8);
    assert raw[12..16] == ToBigEndian(f.header.flags, 4);
    assert raw[16..] == f.payload;
  }

  /** On the wire: connection in bytes 0 to 3, sequence in 4 to 11, flags in 12 to 15, most significant first, then the payload. */
  lemma EncodedLayout(f: Frame)
    ensures var raw, c, x := Encode(f), f.header.connectionId, f.header.flags;
            && raw[..4] == [c / 0x100 / 0x100 / 0x100 % 0x100, c / 0x100 / 0x100 % 0x100, c / 0x100 % 0x100, c % 0x100]
            && FromBigEndian(raw[4..12]) == f.header.sequence
            && raw[12..16] == [x / 0x100 / 0x100 / 0x100 % 0x100, x / 0x100 / 0x100 % 0x100, x / 0x100 % 0x100, x % 0x100]
            && raw[16..] == f.payload
  {
    var raw := Encode(f);
    FourBytes(f.header.connectionId);
    FourBytes(f.header.flags);
    Capacities();
    DecodeEncode(f.header.sequence, 8);
    assert raw[..4] == ToBigEndian(f.header.connectionId, 4) && raw[4..12] == ToBigEndian(f.header.sequence, 8);
    assert raw[12..16] == ToBigEndian(f.header.flags, 4) && raw[16..] == f.payload;
  }

  /** Decoding loses nothing: together with DecodeEncoded, a bijection onto inputs of at least 16 bytes. */
  lemma EncodeDecoded(raw: seq<byte>)
    ensures Decode(raw).Ok? <==> |raw| >= HEADER_LEN
    ensures Decode(raw).Ok? ==> Encode(Decode(raw).value) == raw
  {
    if |raw| >= HEADER_LEN {
      EncodeDecode(raw[..4]);
      EncodeDecode(raw[4..12]);
      EncodeDecode(raw[12..16]);
      assert raw == raw[..4] + raw[4..12] + raw[12..16] + raw[16..];
    }
  }

  // ---- Receiving ------------------------------------------------------------

  /** The receiving half of a session's state. */
  datatype Rx = Rx(connectionId: u32, next: u64, buffer: map<u64, Frame>)

  datatype Drained = Drained(ready: seq<Frame>, next: u64, buffer: map<u64, Frame>)

  /** Takes frames out of the buffer for as long as the next one is there; ends even if `next` wraps. */
  function Drain(next: u64, buffer: map<u64, Frame>): (r: Drained)
    decreases |buffer|
  {
    if next !in buffer then Drained([], next, buffer)
    else
      assert buffer.Keys == (buffer - {next}).Keys + {next};
      var rest := Drain(WrappingSucc(next), buffer - {next});
      Drained([buffer[next]] + rest.ready, rest.next, rest.buffer)
  }

  datatype Ingested = Ingested(rx: Rx, result: Result<seq<Frame>, SessionError>)

  /** What `ingest_inbound` does to the receiving state and returns. */
  function Ingest(rx: Rx, f: Frame): (r: Ingested) {
    if f.header.connectionId != rx.connectionId then
      Ingested(rx, Err(ConnectionMismatch(rx.connectionId, f.header.connectionId)))
    else if f.header.sequence < rx.next then
      Ingested(rx, Err(StaleSequence(rx.next, f.header.sequence)))
    else
      var buffer := if f.header.sequence in rx.buffer then rx.buffer else rx.buffer[f.header.sequence := f];
      var d := Drain(rx.next, buffer);
      Ingested(Rx(rx.connectionId, d.next, d.buffer), Ok(d.ready))
  }

  class SessionState {
    const connectionId: u32
    var nextTxSequence: u64
    var nextRxSequence: u64
    var reorderBuffer: map<u64, Frame>
    /** Every frame created so far, oldest first. */
    ghost var created: seq<Frame>

    ghost predicate Valid()
      reads this
    {
      && nextTxSequence == |created| % 0x1_0000_0000_0000_0000
      && Numbered(connectionId, created)
    }

    ghost function Receiving(): (r: Rx)
      reads this
    {
      Rx(connectionId, nextRxSequence, reorderBuffer)
    }

    constructor (connectionId: u32)
      ensures Valid() && created == [] && this.connectionId == connectionId
      ensures Receiving() == Rx(connectionId, 0, map[])
    {
      this.connectionId := connectionId;
      nextTxSequence, nextRxSequence, reorderBuffer := 0, 0, map[];
      created := [];
    }

    method CreateOutboundFrame(payload: seq<byte>, flags: u32) returns (frame: Frame)
      requires Valid()
      modifies this
      ensures Valid() && created == old(created) + [frame]
      ensures frame.payload == payload && frame.header.flags == flags
      ensures Receiving() == old(Receiving())
    {
      frame := Frame(Header(connectionId, nextTxSequence, flags), payload);
      CountsOn(|created|);
      nextTxSequence := WrappingSucc(nextTxSequence);
      created := created + [frame];
    }

    method IngestInbound(frame: Frame) returns (r: Result<seq<Frame>, SessionError>)
      modifies this`nextRxSequence, this`reorderBuffer
      ensures Ingested(Receiving(), r) == Ingest(old(Receiving()), frame)
    {
      if frame.header.connectionId != connectionId {
        return Err(ConnectionMismatch(connectionId, frame.header.connectionId));
      }
      if frame.header.sequence < nextRxSequence {
        return Err(StaleSequence(nextRxSequence, frame.header.sequence));
      }
      if frame.header.sequence !in reorderBuffer {
        reorderBuffer := reorderBuffer[frame.header.sequence := frame];
      }
      ghost var all := Drain(nextRxSequence, reorderBuffer);
      var ready := [];
      while nextRxSequence in reorderBuffer
        invariant var d := Drain(nextRxSequence, reorderBuffer);
                  ready + d.ready == all.ready && d.next == all.next && d.buffer == all.buffer
        decreases |reorderBuffer|
      {
        assert reorderBuffer.Keys == (reorderBuffer - {nextRxSequence}).Keys + {nextRxSequence};
        ready := ready + [reorderBuffer[nextRxSequence]];
        reorderBuffer := reorderBuffer - {nextRxSequence};
        nextRxSequence := WrappingSucc(nextRxSequence);
      }
      assert ready + [] == ready;
      r := Ok(ready);
    }
  }

  /** Frames of one connection carrying consecutive sequence numbers from zero, modulo 2^64. */
  ghost predicate Numbered(connectionId: u32, frames: seq<Frame>) {
    forall i | 0 <= i < |frames| ::
      frames[i].header.connectionId == connectionId && frames[i].header.sequence == i % 0x1_0000_0000_0000_0000
  }

  // ---- Whole runs -----------------------------------------------------------

  datatype Delivery = Delivery(rx: Rx, delivered: seq<Frame>)

  /** One more arrival: the new state, and whatever became ready added to what was handed up. */
  function Deliver(before: Delivery, f: Frame): (r: Delivery) {
    var i := Ingest(before.rx, f);
    Delivery(i.rx, before.delivered + if i.result.Ok? then i.result.value else [])
  }

  /** A new session after ingesting `arrivals`, with everything it handed up so far. */
  function Receive(connectionId: u32, arrivals: seq<Frame>): (r: Delivery) {
    if arrivals == [] then Delivery(Rx(connectionId, 0, map[]), [])
    else Deliver(Receive(connectionId, arrivals[..|arrivals| - 1]), arrivals[|arrivals| - 1])
  }

  lemma ReceiveOneMore(connectionId: u32, arrivals: seq<Frame>, f: Frame)
    ensures Receive(connectionId, arrivals + [f]) == Deliver(Receive(connectionId, arrivals), f)
  {
  }

  /** The reference: the first copy of every sequence number seen on the connection. */
  function Accepted(connectionId: u32, arrivals: seq<Frame>): (r: map<u64, Frame>) {
    if arrivals == [] then map[]
    else
      var before := Accepted(connectionId, arrivals[..|arrivals| - 1]);
      var f := arrivals[|arrivals| - 1];
      if f.header.connectionId == connectionId && f.header.sequence !in before then before[f.header.sequence := f] else before
  }

  /** `n` is the least sequence number not yet accepted. */
  ghost predicate LeastMissing(m: map<u64, Frame>, n: u64) {
    n !in m && AllBelow(m, n)
  }

  ghost predicate AllBelow(m: map<u64, Frame>, n: nat) {
    forall k: u64 | k < n :: k in m
  }

  /** Below the sequence wrap: some number is still free. */
  ghost predicate NotExhausted(m: map<u64, Frame>) {
    exists s: u64 :: s !in m
  }

  ghost function Beyond(m: map<u64, Frame>, n: nat): (r: map<u64, Frame>) {
    map k | k in m && k >= n :: m[k]
  }

  ghost function InOrder(m: map<u64, Frame>, from: nat, to: nat): (r: seq<Frame>)
    requires from <= to <= 0x1_0000_0000_0000_0000 && AllBelow(m, to)
    ensures |r| == to - from
  {
    seq(to - from, i requires 0 <= i < to - from => var k: u64 := from + i; m[k])
  }

  lemma InOrderHead(m: map<u64, Frame>, n: u64, to: nat)
    requires n < to <= 0x1_0000_0000_0000_0000 && AllBelow(m, to)
    ensures InOrder(m, n, to) == [m[n]] + InOrder(m, n + 1, to)
  {
  }

  lemma {:induction false} DrainReachesLeastMissing(m: map<u64, Frame>, n: u64, buffer: map<u64, Frame>)
    requires AllBelow(m, n) && NotExhausted(m) && buffer == Beyond(m, n)
    ensures var d := Drain(n, buffer);
            && LeastMissing(m, d.next) && n <= d.next
            && d.buffer == Beyond(m, d.next)
            && d.ready == InOrder(m, n, d.next)
    decreases |buffer|
  {
    if n in buffer {
      var s: u64 :| s !in m;
      assert n < s;
      assert n + 1 == WrappingSucc(n);
      assert buffer.Keys == (buffer - {n}).Keys + {n};
      assert buffer - {n} == Beyond(m, n + 1);
      DrainReachesLeastMissing(m, n + 1, buffer - {n});
      var d := Drain(n, buffer);
      InOrderHead(m, n, d.next);
    }
  }

  /**
   The reorder buffer after any run: the expected sequence is the least one not accepted,
   the buffer holds exactly the accepted frames beyond it, and what was handed up is every
   accepted frame before it, in order and once each. Only the first copies matter.
   */
  lemma {:induction false} ReceiveIsReassembly(connectionId: u32, arrivals: seq<Frame>)
    requires NotExhausted(Accepted(connectionId, arrivals))
    ensures var m, d := Accepted(connectionId, arrivals), Receive(connectionId, arrivals);
            && d.rx.connectionId == connectionId
            && LeastMissing(m, d.rx.next)
            && d.rx.buffer == Beyond(m, d.rx.next)
            && d.delivered == InOrder(m, 0, d.rx.next)
  {
    if arrivals != [] {
      var earlier, f := arrivals[..|arrivals| - 1], arrivals[|arrivals| - 1];
      var m0, m := Accepted(connectionId, earlier), Accepted(connectionId, arrivals);
      var s: u64 :| s !in m;
      assert s !in m0;
      ReceiveIsReassembly(connectionId, earlier);
      var before := Receive(connectionId, earlier);
      IngestExtends(m0, m, before, f);
    }
  }

  lemma IngestExtends(m0: map<u64, Frame>, m: map<u64, Frame>, before: Delivery, f: Frame)
    requires LeastMissing(m0, before.rx.next) && before.rx.buffer == Beyond(m0, before.rx.next)
    requires before.delivered == InOrder(m0, 0, before.rx.next)
    requires NotExhausted(m)
    requires m == if f.header.connectionId == before.rx.connectionId && f.header.sequence !in m0
                  then m0[f.header.sequence := f] else m0
    ensures var d := Deliver(before, f);
            && LeastMissing(m, d.rx.next) && d.rx.buffer == Beyond(m, d.rx.next)
            && d.delivered == InOrder(m, 0, d.rx.next)
  {
    var n, s := before.rx.next, f.header.sequence;
    var i := Ingest(before.rx, f);
    if i.result.Err? {
      assert m == m0;
    } else {
      var buffer := if s in before.rx.buffer then before.rx.buffer else before.rx.buffer[s := f];
      assert buffer == Beyond(m, n);
      DrainReachesLeastMissing(m, n, buffer);
      assert InOrder(m, 0, n) == InOrder(m0, 0, n);
      assert InOrder(m, 0, i.rx.next) == InOrder(m, 0, n) + InOrder(m, n, i.rx.next);
    }
  }

  /** An accepted frame is the first arrival on the connection with its sequence number. */
  ghost predicate FirstCopy(connectionId: u32, arrivals: seq<Frame>, s: u64, i: nat) {
    && i < |arrivals| && arrivals[i].header.connectionId == connectionId && arrivals[i].header.sequence == s
    && forall j | 0 <= j < i :: !(arrivals[j].header.connectionId == connectionId && arrivals[j].header.sequence == s)
  }

  lemma {:induction false} FirstCopyOf(connectionId: u32, arrivals: seq<Frame>, s: u64) returns (i: nat)
    requires s in Accepted(connectionId, arrivals)
    ensures FirstCopy(connectionId, arrivals, s, i) && Accepted(connectionId, arrivals)[s] == arrivals[i]
  {
    var last := |arrivals| - 1;
    if s in Accepted(connectionId, arrivals[..last]) {
      i := FirstCopyOf(connectionId, arrivals[..last], s);
    } else {
      i := last;
      forall j | 0 <= j < last ensures !(arrivals[j].header.connectionId == connectionId && arrivals[j].header.sequence == s) {
        assert arrivals[..last][j] == arrivals[j];
        if arrivals[j].header.connectionId == connectionId {
          ArrivalIsAccepted(connectionId, arrivals[..last], j);
        }
      }
    }
  }

  lemma {:induction false} ArrivalIsAccepted(connectionId: u32, arrivals: seq<Frame>, j: nat)
    requires j < |arrivals| && arrivals[j].header.connectionId == connectionId
    ensures arrivals[j].header.sequence in Accepted(connectionId, arrivals)
  {
    var last := |arrivals| - 1;
    if j < last {
      assert arrivals[..last][j] == arrivals[j];
      ArrivalIsAccepted(connectionId, arrivals[..last], j);
    }
  }

  /** Copies of a sequence number on the connection are identical, as they are when one sender made them. */
  ghost predicate Consistent(connectionId: u32, arrivals: seq<Frame>) {
    forall f, g | f in arrivals && g in arrivals
                  && f.header.connectionId == connectionId == g.header.connectionId
                  && f.header.sequence == g.header.sequence :: f == g
  }

  /** Two arrival orders of the same frames end in the same state and hand up the same frames. */
  lemma OrderDoesNotMatter(connectionId: u32, a: seq<Frame>, b: seq<Frame>)
    requires forall f :: f in a <==> f in b
    requires Consistent(connectionId, a) && NotExhausted(Accepted(connectionId, a))
    ensures Receive(connectionId, a) == Receive(connectionId, b)
  {
    var ma, mb := Accepted(connectionId, a), Accepted(connectionId, b);
    forall s | s in ma ensures s in mb && mb[s] == ma[s] {
      SameAcceptance(connectionId, a, b, s);
    }
    forall s | s in mb ensures s in ma {
      SameAcceptance(connectionId, b, a, s);
    }
    assert ma == mb;
    AcceptedDecides(connectionId, a, b);
  }

  /** The state is a function of the accepted frames. */
  lemma AcceptedDecides(connectionId: u32, a: seq<Frame>, b: seq<Frame>)
    requires Accepted(connectionId, a) == Accepted(connectionId, b) && NotExhausted(Accepted(connectionId, a))
    ensures Receive(connectionId, a) == Receive(connectionId, b)
  {
    ReceiveIsReassembly(connectionId, a);
    ReceiveIsReassembly(connectionId, b);
  }

  lemma SameAcceptance(connectionId: u32, a: seq<Frame>, b: seq<Frame>, s: u64)
    requires forall f | f in a :: f in b
    requires Consistent(connectionId, b) && s in Accepted(connectionId, a)
    ensures s in Accepted(connectionId, b) && Accepted(connectionId, b)[s] == Accepted(connectionId, a)[s]
  {
    var i := FirstCopyOf(connectionId, a, s);
    assert a[i] in a && a[i] in b;
    var k :| 0 <= k < |b| && b[k] == a[i];
    ArrivalIsAccepted(connectionId, b, k);
    var j := FirstCopyOf(connectionId, b, s);
    assert b[j] in b && b[k] in b;
  }

  /** A frame leaves the state as it was exactly when it is foreign or a copy of one already accepted. */
  lemma UnchangedIff(connectionId: u32, arrivals: seq<Frame>, f: Frame)
    requires NotExhausted(Accepted(connectionId, arrivals + [f]))
    ensures Receive(connectionId, arrivals + [f]) == Receive(connectionId, arrivals)
            <==> f.header.connectionId != connectionId || f.header.sequence in Accepted(connectionId, arrivals)
  {
    assert (arrivals + [f])[..|arrivals|] == arrivals;
    var m0, m := Accepted(connectionId, arrivals), Accepted(connectionId, arrivals + [f]);
    var s: u64 :| s !in m;
    assert s !in m0;
    ReceiveIsReassembly(connectionId, arrivals);
    ReceiveIsReassembly(connectionId, arrivals + [f]);
    var n0, n := Receive(connectionId, arrivals).rx.next, Receive(connectionId, arrivals + [f]).rx.next;
    if m == m0 {
      assert n == n0;
    } else if n == n0 {
      assert f.header.sequence in Beyond(m, n) && f.header.sequence !in Beyond(m0, n0);
    }
  }

  /**
   One sender's frames, arriving in any order with any copies and any losses: what is handed
   up is the frames before the first one that has not arrived, and all of them once all have.
   */
  lemma DeliveryIsPrefix(connectionId: u32, created: seq<Frame>, arrivals: seq<Frame>)
    requires Numbered(connectionId, created) && |created| < 0x1_0000_0000_0000_0000
    requires forall f | f in arrivals :: f in created
    ensures var d := Receive(connectionId, arrivals);
            && d.rx.next <= |created| && d.delivered == created[..d.rx.next]
            && (forall i | 0 <= i < d.rx.next :: created[i] in arrivals)
            && (d.rx.next < |created| ==> created[d.rx.next] !in arrivals)
    ensures (forall f | f in created :: f in arrivals) ==>
              Receive(connectionId, arrivals) == Delivery(Rx(connectionId, |created|, map[]), created)
  {
    var m, end := Accepted(connectionId, arrivals), |created|;
    forall s: u64
      ensures s in m <==> s < end && created[s] in arrivals
      ensures s in m ==> m[s] == created[s]
    {
      AcceptedFromSender(connectionId, created, arrivals, s);
    }
    var free: u64 := end;
    assert free !in m;
    ReceiveIsReassembly(connectionId, arrivals);
    var d := Receive(connectionId, arrivals);
    assert d.delivered == created[..d.rx.next];
    if forall f | f in created :: f in arrivals {
      assert d.rx.next == end;
      assert created[..end] == created;
    }
  }

  lemma AcceptedFromSender(connectionId: u32, created: seq<Frame>, arrivals: seq<Frame>, s: u64)
    requires Numbered(connectionId, created) && |created| < 0x1_0000_0000_0000_0000
    requires forall f | f in arrivals :: f in created
    ensures var m := Accepted(connectionId, arrivals);
            && (s in m <==> s < |created| && created[s] in arrivals)
            && (s in m ==> m[s] == created[s])
  {
    if s in Accepted(connectionId, arrivals) {
      var i := FirstCopyOf(connectionId, arrivals, s);
      assert arrivals[i] in arrivals;
      var k :| 0 <= k < |created| && created[k] == arrivals[i];
    }
    if s < |created| && created[s] in arrivals {
      var j :| 0 <= j < |arrivals| && arrivals[j] == created[s];
      ArrivalIsAccepted(connectionId, arrivals, j);
    }
  }

  // ---- The wrap of the sequence ---------------------------------------------

  lemma {:induction false} DrainWhenFull(m: map<u64, Frame>, n: u64, buffer: map<u64, Frame>)
    requires AllBelow(m, 0x1_0000_0000_0000_0000) && buffer == Beyond(m, n)
    ensures Drain(n, buffer) == Drained(InOrder(m, n, 0x1_0000_0000_0000_0000), 0, map[])
    decreases MAX_U64 - n
  {
    assert n in buffer;
    InOrderHead(m, n, 0x1_0000_0000_0000_0000);
    if n < MAX_U64 {
      assert buffer - {n} == Beyond(m, n + 1);
      DrainWhenFull(m, n + 1, buffer - {n});
    } else {
      assert buffer - {n} == map[];
    }
  }

  /** The arrival that completes all 2^64 numbers hands up the rest of them and leaves a session like a new one. */
  lemma WrapStartsOver(connectionId: u32, arrivals: seq<Frame>, f: Frame)
    requires NotExhausted(Accepted(connectionId, arrivals))
    requires AllBelow(Accepted(connectionId, arrivals + [f]), 0x1_0000_0000_0000_0000)
    ensures Receive(connectionId, arrivals + [f])
            == Delivery(Rx(connectionId, 0, map[]), InOrder(Accepted(connectionId, arrivals + [f]), 0, 0x1_0000_0000_0000_0000))
  {
    var m0, m := Accepted(connectionId, arrivals), Accepted(connectionId, arrivals + [f]);
    assert (arrivals + [f])[..|arrivals|] == arrivals;
    var s: u64 :| s !in m0;
    ReceiveIsReassembly(connectionId, arrivals);
    var before := Receive(connectionId, arrivals);
    FullBuffer(m0, m, before, f);
    DrainWhenFull(m, before.rx.next, before.rx.buffer[f.header.sequence := f]);
    ReceiveOneMore(connectionId, arrivals, f);
    InOrderJoins(m0, m, before.rx.next);
  }

  lemma FullBuffer(m0: map<u64, Frame>, m: map<u64, Frame>, before: Delivery, f: Frame)
    requires LeastMissing(m0, before.rx.next) && before.rx.buffer == Beyond(m0, before.rx.next)
    requires m == m0[f.header.sequence := f] && AllBelow(m, 0x1_0000_0000_0000_0000)
    ensures f.header.sequence == before.rx.next && before.rx.next !in before.rx.buffer
    ensures before.rx.buffer[f.header.sequence := f] == Beyond(m, before.rx.next)
  {
    assert before.rx.next in m;
  }

  lemma InOrderJoins(m0: map<u64, Frame>, m: map<u64, Frame>, n: u64)
    requires AllBelow(m0, n) && AllBelow(m, 0x1_0000_0000_0000_0000) && forall k: u64 | k < n :: m[k] == m0[k]
    ensures InOrder(m0, 0, n) + InOrder(m, n, 0x1_0000_0000_0000_0000) == InOrder(m, 0, 0x1_0000_0000_0000_0000)
  {
  }

  /** From such a point on the session behaves as a new one: a long run is a sequence of runs below the wrap. */
  lemma {:induction false} RunsFollowOn(connectionId: u32, a: seq<Frame>, b: seq<Frame>)
    requires Receive(connectionId, a).rx == Rx(connectionId, 0, map[])
    ensures Receive(connectionId, a + b)
            == Delivery(Receive(connectionId, b).rx, Receive(connectionId, a).delivered + Receive(connectionId, b).delivered)
  {
    if b == [] {
      assert a + b == a;
    } else {
      var earlier, f := b[..|b| - 1], b[|b| - 1];
      RunsFollowOn(connectionId, a, earlier);
      assert b == earlier + [f] && a + b == (a + earlier) + [f];
      ReceiveOneMore(connectionId, earlier, f);
      ReceiveOneMore(connectionId, a + earlier, f);
      DeliverFollowsOn(Receive(connectionId, a).delivered, Receive(connectionId, earlier), f);
    }
  }

  /** What was handed up before has no bearing on what an arrival does. */
  lemma DeliverFollowsOn(earlier: seq<Frame>, d: Delivery, f: Frame)
    ensures Deliver(Delivery(d.rx, earlier + d.delivered), f) == Delivery(Deliver(d, f).rx, earlier + Deliver(d, f).delivered)
  {
    var more := if Ingest(d.rx, f).result.Ok? then Ingest(d.rx, f).result.value else [];
    assert (earlier + d.delivered) + more == earlier + (d.delivered + more);
  }
}
