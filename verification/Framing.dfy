/**
 Length-prefixed framing over a byte stream (TCP, and the frame phase of QUIC). The
 reader keeps its buffer across cancelled calls, so no split of the stream into reads
 and no cancellation point changes which frames come out.
 */
module Framing {
  import opened Octets
  import opened Sequences
  import opened Session
  import opened Wrappers

  const MIN_FRAME_LEN := 16

  // ---- The reference: a stream is a list of frames --------------------------

  predicate Sendable(f: Frame) {
    HEADER_LEN + |f.payload| < 0x1_0000_0000
  }

  /** The bytes `send` writes for a frame: a 32-bit length and the encoding. */
  function Wire(f: Frame): (r: seq<byte>)
    ensures |r| == 20 + |f.payload|
  {
    ToBigEndian(|Encode(f)|, 4) + Encode(f)
  }

  function Wires(frames: seq<Frame>): (r: seq<byte>) {
    if frames == [] then [] else Wire(frames[0]) + Wires(frames[1..])
  }

  datatype Front = NeedMore | Invalid(len: nat) | Ready(frame: Frame, rest: seq<byte>)

  /** What stands at the front of the buffered bytes. */
  function FrontOf(bytes: seq<byte>): (r: Front)
    ensures r.Ready? ==> Sendable(r.frame) && bytes == Wire(r.frame) + r.rest
  {
    if |bytes| < 4 then NeedMore
    else
      var len := FromBigEndian(bytes[..4]);
      if len < MIN_FRAME_LEN then Invalid(len)
      else if |bytes| < 4 + len then NeedMore
      else
        ReadyIsWire(bytes, len);
        Ready(Decode(bytes[4..4 + len]).value, bytes[4 + len..])
  }

  lemma ReadyIsWire(bytes: seq<byte>, len: nat)
    requires |bytes| >= 4 + len && len >= MIN_FRAME_LEN && len == FromBigEndian(bytes[..4])
    ensures Decode(bytes[4..4 + len]).Ok?
    ensures var f := Decode(bytes[4..4 + len]).value;
            Sendable(f) && bytes == Wire(f) + bytes[4 + len..]
  {
    Capacities();
    EncodeDecoded(bytes[4..4 + len]);
    EncodeDecode(bytes[..4]);
    assert bytes == bytes[..4] + bytes[4..4 + len] + bytes[4 + len..];
  }

  /** All frames wholly contained in the bytes, up to the first invalid length prefix. */
  function Parse(bytes: seq<byte>): (r: seq<Frame>)
    decreases |bytes|
  {
    match FrontOf(bytes)
    case Ready(f, rest) => [f] + Parse(rest)
    case _ => []
  }

  lemma FrontOfWire(f: Frame, rest: seq<byte>)
    requires Sendable(f)
    ensures FrontOf(Wire(f) + rest) == Ready(f, rest)
  {
    var bytes, len := Wire(f) + rest, |Encode(f)|;
    Capacities();
    DecodeEncode(len, 4);
    DecodeEncoded(f);
    assert bytes[..4] == ToBigEndian(len, 4);
    assert bytes[4..4 + len] == Encode(f);
    assert bytes[4 + len..] == rest;
  }

  lemma ParseWire(f: Frame, rest: seq<byte>, bytes: seq<byte>, frames: seq<Frame>)
    requires Sendable(f) && bytes == Wire(f) + rest && Parse(rest) == frames
    ensures Parse(bytes) == [f] + frames
  {
    FrontOfWire(f, rest);
  }

  lemma WiresFront(frames: seq<Frame>, rest: seq<byte>)
    requires frames != []
    ensures Wires(frames) + rest == Wire(frames[0]) + (Wires(frames[1..]) + rest)
  {
  }

  /** Sent frames come back in order, followed by whatever the remaining bytes hold. */
  lemma {:induction false} ParseWires(frames: seq<Frame>, rest: seq<byte>)
    requires forall f | f in frames :: Sendable(f)
    ensures Parse(Wires(frames) + rest) == frames + Parse(rest)
  {
    if frames == [] {
      assert Wires(frames) + rest == rest && frames + Parse(rest) == Parse(rest);
    } else {
      var tail, parsed := frames[1..], Parse(rest);
      ParseWires(tail, rest);
      WiresFront(frames, rest);
      ParseWire(frames[0], Wires(tail) + rest, Wires(frames) + rest, tail + parsed);
      SplitHead(frames, parsed);
    }
  }

  /** A decided front stays decided however many bytes follow. */
  lemma FrontIsStable(bytes: seq<byte>, more: seq<byte>)
    requires !FrontOf(bytes).NeedMore?
    ensures FrontOf(bytes + more) ==
            match FrontOf(bytes) case Invalid(len) => Invalid(len) case Ready(f, rest) => Ready(f, rest + more)
  {
    assert (bytes + more)[..4] == bytes[..4];
    if FrontOf(bytes).Ready? {
      var len := FromBigEndian(bytes[..4]);
      assert (bytes + more)[4..4 + len] == bytes[4..4 + len];
      assert (bytes + more)[4 + len..] == bytes[4 + len..] + more;
    }
  }

  /** More bytes only ever add frames at the end. */
  lemma {:induction false} ParseGrows(bytes: seq<byte>, more: seq<byte>)
    ensures Parse(bytes) <= Parse(bytes + more)
    decreases |bytes|
  {
    match FrontOf(bytes)
    case Ready(f, rest) =>
      FrontIsStable(bytes, more);
      ParseGrows(rest, more);
    case _ =>
  }

  /** Any cut of a sent stream parses to a prefix of the frames sent. */
  lemma ParseCutStream(frames: seq<Frame>, bytes: seq<byte>)
    requires forall f | f in frames :: Sendable(f)
    requires bytes <= Wires(frames)
    ensures Parse(bytes) <= frames
  {
    var more := Wires(frames)[|bytes|..];
    assert bytes + more == Wires(frames) + [];
    ParseGrows(bytes, more);
    ParseWires(frames, []);
  }

  lemma {:induction false} WiresAppend(frames: seq<Frame>, f: Frame)
    ensures Wires(frames + [f]) == Wires(frames) + Wire(f)
  {
    if frames == [] {
      assert frames + [f] == [f];
      assert Wires([f]) == Wire(f) + Wires([f][1..]) == Wire(f);
    } else {
      assert (frames + [f])[1..] == frames[1..] + [f];
      WiresAppend(frames[1..], f);
    }
  }

  // ---- The reader -----------------------------------------------------------

  /** One completed read on the stream; zero bytes mean the peer has closed. */
  datatype ReadOutcome = Data(bytes: seq<byte>) | Failed

  /** `Cancelled` is a call dropped while a read was outstanding. */
  datatype Received = Got(frame: Frame) | BadLength(len: nat) | Closed | ReadFailed | Cancelled

  /** What the first `k` reads brought. */
  function BytesUpTo(arrivals: seq<ReadOutcome>, k: nat): (r: seq<byte>)
    requires k <= |arrivals|
  {
    if k == 0 then [] else BytesUpTo(arrivals, k - 1) + if arrivals[k - 1].Data? then arrivals[k - 1].bytes else []
  }

  class FrameReader {
    var readBuf: seq<byte>
    /** Every byte the stream has produced. */
    ghost var received: seq<byte>
    /** Every frame `Recv` has returned. */
    ghost var returned: seq<Frame>

    ghost predicate Valid()
      reads this
    {
      && received == Wires(returned) + readBuf
      && forall f | f in returned :: Sendable(f)
    }

    constructor ()
      ensures Valid() && received == [] && returned == []
    {
      readBuf, received, returned := [], [], [];
    }

    /**
     One `recv` call. `arrivals` are the reads that complete before the call is dropped; the call consumes
     some of them and returns, or is cancelled after the last. Its outcome is what the bytes seen decide; it
     reads on exactly while they decide nothing, and gives up only on a read that ended the stream or failed.
     */
    method Recv(arrivals: seq<ReadOutcome>) returns (r: Received, used: nat)
      requires Valid()
      modifies this
      ensures Valid() && used <= |arrivals| && received == old(received) + BytesUpTo(arrivals, used)
      ensures returned == old(returned) + if r.Got? then [r.frame] else []
      ensures Outcome(old(readBuf), arrivals, used, r)
      ensures (if r.Got? then Wire(r.frame) else []) + readBuf == old(readBuf) + BytesUpTo(arrivals, used)
    {
      ghost var start := readBuf;
      assert start + [] == start && [] + readBuf == readBuf;
      var ended;
      ended, used := Fill(4, arrivals, 0, start);
      Associative(Wires(returned), start, BytesUpTo(arrivals, used));
      if ended.Some? {
        assert [] + readBuf == readBuf;
        return ended.value, used;
      }
      var len := FromBigEndian(readBuf[..4]);
      if len < MIN_FRAME_LEN {
        assert [] + readBuf == readBuf;
        return BadLength(len), used;
      }
      r, used := RecvBody(len, arrivals, used, start);
      Associative(Wires(old(returned)), start, BytesUpTo(arrivals, used));
    }

    /** The second half of `recv`: the length is known and good, the frame is still to come. */
    method RecvBody(len: nat, arrivals: seq<ReadOutcome>, from: nat, ghost start: seq<byte>) returns (r: Received, used: nat)
      requires Valid() && from <= |arrivals| && readBuf == start + BytesUpTo(arrivals, from)
      requires |readBuf| >= 4 && len == FromBigEndian(readBuf[..4]) && len >= MIN_FRAME_LEN
      requires AllData(arrivals, from) && forall k | 0 <= k < from :: Undecided(start, arrivals, k)
      modifies this
      ensures Valid() && used <= |arrivals| && received == Wires(old(returned)) + (start + BytesUpTo(arrivals, used))
      ensures returned == old(returned) + if r.Got? then [r.frame] else []
      ensures Outcome(start, arrivals, used, r)
      ensures (if r.Got? then Wire(r.frame) else []) + readBuf == start + BytesUpTo(arrivals, used)
    {
      ghost var seen := readBuf;
      var ended;
      ended, used := Fill(4 + len, arrivals, from, start);
      forall k | from <= k < used ensures Undecided(start, arrivals, k) {
        BytesGrow(arrivals, from, k);
        StillShort(seen, start + BytesUpTo(arrivals, k), len);
      }
      assert readBuf[..4] == seen[..4];
      if ended.Some? {
        assert [] + readBuf == readBuf;
        return ended.value, used;
      }
      var frame := SplitFrame(len);
      r := Got(frame);
    }

    /** Takes one frame off the front of a buffer that holds it whole. */
    method SplitFrame(len: nat) returns (frame: Frame)
      requires Valid() && |readBuf| >= 4 + len && len >= MIN_FRAME_LEN && len == FromBigEndian(readBuf[..4])
      modifies this`readBuf, this`returned
      ensures Valid() && returned == old(returned) + [frame]
      ensures FrontOf(old(readBuf)) == Ready(frame, readBuf)
    {
      ReadyIsWire(readBuf, len);
      var frameBytes := readBuf[4..4 + len];
      readBuf := readBuf[4 + len..];
      frame := Decode(frameBytes).value;
      WiresAppend(returned, frame);
      returned := returned + [frame];
    }

    /** Reads until `n` bytes are buffered, and no further; `ended` says why that did not happen. */
    method Fill(n: nat, arrivals: seq<ReadOutcome>, from: nat, ghost start: seq<byte>) returns (ended: Option<Received>, used: nat)
      requires Valid() && from <= |arrivals| && readBuf == start + BytesUpTo(arrivals, from) && AllData(arrivals, from)
      modifies this`readBuf, this`received
      ensures Valid() && from <= used <= |arrivals| && readBuf == start + BytesUpTo(arrivals, used)
      ensures old(readBuf) <= readBuf
      ensures ended.None? <==> |readBuf| >= n
      ensures forall k | from <= k < used :: |start| + |BytesUpTo(arrivals, k)| < n
      ensures ended.None? ==> AllData(arrivals, used)
      ensures ended.Some? ==> GaveUp(arrivals, used, ended.value)
    {
      used := from;
      while |readBuf| < n
        invariant Valid() && from <= used <= |arrivals| && readBuf == start + BytesUpTo(arrivals, used)
        invariant old(readBuf) <= readBuf
        invariant AllData(arrivals, used) && forall k | from <= k < used :: |start| + |BytesUpTo(arrivals, k)| < n
        decreases |arrivals| - used
      {
        if used == |arrivals| {
          return Some(Cancelled), used;
        }
        var outcome := arrivals[used];
        used := used + 1;
        if outcome.Failed? || |outcome.bytes| == 0 {
          assert BytesUpTo(arrivals, used) == BytesUpTo(arrivals, used - 1);
          return Some(if outcome.Failed? then ReadFailed else Closed), used;
        }
        Associative(start, BytesUpTo(arrivals, used - 1), outcome.bytes);
        Extend(outcome.bytes);
      }
      ended := None;
    }

    /** One read's bytes join the buffer. */
    method Extend(bytes: seq<byte>)
      requires Valid()
      modifies this`readBuf, this`received
      ensures Valid() && readBuf == old(readBuf) + bytes && received == old(received) + bytes
    {
      Associative(Wires(returned), readBuf, bytes);
      readBuf := readBuf + bytes;
      received := received + bytes;
    }
  }

  predicate HasBytes(outcome: ReadOutcome) {
    outcome.Data? && outcome.bytes != []
  }

  ghost predicate AllData(arrivals: seq<ReadOutcome>, k: nat)
    requires k <= |arrivals|
  {
    forall i | 0 <= i < k :: HasBytes(arrivals[i])
  }

  /** The last read used ended the stream or failed, or there was none left to use. */
  ghost predicate GaveUp(arrivals: seq<ReadOutcome>, used: nat, r: Received)
    requires used <= |arrivals|
  {
    match r
    case Closed => used > 0 && AllData(arrivals, used - 1) && arrivals[used - 1] == Data([])
    case ReadFailed => used > 0 && AllData(arrivals, used - 1) && arrivals[used - 1].Failed?
    case Cancelled => AllData(arrivals, used) && used == |arrivals|
    case _ => false
  }

  /** The first `k` reads decided nothing. */
  ghost predicate Undecided(start: seq<byte>, arrivals: seq<ReadOutcome>, k: nat)
    requires k <= |arrivals|
  {
    FrontOf(start + BytesUpTo(arrivals, k)).NeedMore?
  }

  /** A call's result is the frame or the bad length at the front of what it has seen, or neither is there yet. */
  ghost predicate Decides(front: Front, r: Received) {
    match front
    case Ready(f, _) => r == Got(f)
    case Invalid(len) => r == BadLength(len)
    case NeedMore => r.Closed? || r.ReadFailed? || r.Cancelled?
  }

  /**
   What a call that starts with `start` buffered may return after `used` reads. It reads on exactly while the bytes
   decide nothing, and gives up only on a read that ended the stream or failed, or when there is none.
   */
  ghost predicate Outcome(start: seq<byte>, arrivals: seq<ReadOutcome>, used: nat, r: Received)
    requires used <= |arrivals|
  {
    && Decides(FrontOf(start + BytesUpTo(arrivals, used)), r)
    && (forall k | 0 <= k < used :: Undecided(start, arrivals, k))
    && (if r.Got? || r.BadLength? then AllData(arrivals, used) else GaveUp(arrivals, used, r))
  }

  lemma {:induction false} BytesGrow(arrivals: seq<ReadOutcome>, i: nat, k: nat)
    requires i <= k <= |arrivals|
    ensures BytesUpTo(arrivals, i) <= BytesUpTo(arrivals, k)
  {
    if i < k {
      BytesGrow(arrivals, i, k - 1);
    }
  }

  lemma StillShort(seen: seq<byte>, now: seq<byte>, len: nat)
    requires |seen| >= 4 && seen <= now && len == FromBigEndian(seen[..4]) && len >= MIN_FRAME_LEN && |now| < 4 + len
    ensures FrontOf(now).NeedMore?
  {
    assert now[..4] == seen[..4];
  }

  /** Nothing is left open: the reads determine how many a call uses and what it returns. */
  lemma OutcomeIsUnique(start: seq<byte>, arrivals: seq<ReadOutcome>, u: nat, q: Received, v: nat, r: Received)
    requires u <= |arrivals| && v <= |arrivals|
    requires Outcome(start, arrivals, u, q) && Outcome(start, arrivals, v, r)
    ensures u == v && q == r
  {
    UsesNoMore(start, arrivals, u, q, v, r);
    UsesNoMore(start, arrivals, v, r, u, q);
  }

  lemma UsesNoMore(start: seq<byte>, arrivals: seq<ReadOutcome>, u: nat, q: Received, v: nat, r: Received)
    requires u <= |arrivals| && v <= |arrivals|
    requires Outcome(start, arrivals, u, q) && Outcome(start, arrivals, v, r)
    ensures v <= u
  {
    assert Undecided(start, arrivals, u) ==> q.Closed? || q.ReadFailed? || q.Cancelled?;
    assert v > 0 ==> AllData(arrivals, v - 1);
  }

  lemma StaysDecided(start: seq<byte>, a: seq<byte>, b: seq<byte>)
    requires a <= b && !FrontOf(start + a).NeedMore?
    ensures !FrontOf(start + b).NeedMore?
  {
    assert (start + a) + b[|a|..] == start + b;
    FrontIsStable(start + a, b[|a|..]);
  }

  /** A call that only ever reads data comes back with a frame, or with the bad length, as soon as one is there. */
  lemma DataDecides(start: seq<byte>, arrivals: seq<ReadOutcome>, used: nat, r: Received)
    requires used <= |arrivals| && AllData(arrivals, |arrivals|)
    requires Outcome(start, arrivals, used, r)
    ensures r.Got? || r.BadLength? || r.Cancelled?
    ensures r.Cancelled? <==> FrontOf(start + BytesUpTo(arrivals, |arrivals|)).NeedMore?
  {
    if !r.Cancelled? {
      BytesGrow(arrivals, used, |arrivals|);
      StaysDecided(start, BytesUpTo(arrivals, used), BytesUpTo(arrivals, |arrivals|));
    }
  }

  /**
   The reader refines the list of frames: at every point the frames returned, followed by those
   still in the buffer, are the frames wholly contained in the bytes received, however they were
   chunked; once a call has come back empty-handed, they are all of them.
   */
  lemma ReaderRefinesFrames(received: seq<byte>, returned: seq<Frame>, readBuf: seq<byte>)
    requires received == Wires(returned) + readBuf
    requires forall f | f in returned :: Sendable(f)
    ensures Parse(received) == returned + Parse(readBuf)
    ensures !FrontOf(readBuf).Ready? <==> returned == Parse(received)
  {
    ParseWires(returned, readBuf);
  }
}
