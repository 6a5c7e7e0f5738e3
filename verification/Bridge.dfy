/**
 The byte path from a real server back to the client: chunks queued by a bridge task are fed
 to the user-space TCP socket, which may take any part of a chunk at a time.
 */
module Bridge {
  import opened Octets
  import opened Sequences
  import opened Wrappers

  type Chunk = seq<byte>

  datatype PendingBytes = PendingBytes(bytes: Chunk, offset: nat) {
    predicate IsComplete() {
      offset >= |bytes|
    }

    function Remaining(): (r: seq<byte>)
      requires offset <= |bytes|
    {
      bytes[offset..]
    }
  }

  function Flat(chunks: seq<Chunk>): (r: seq<byte>) {
    if chunks == [] then [] else chunks[0] + Flat(chunks[1..])
  }

  lemma {:induction false} FlatConcat(a: seq<Chunk>, b: seq<Chunk>)
    ensures Flat(a + b) == Flat(a) + Flat(b)
  {
    if a == [] {
      assert a + b == b;
    } else {
      assert (a + b)[1..] == a[1..] + b;
      FlatConcat(a[1..], b);
      Associative(a[0], Flat(a[1..]), Flat(b));
    }
  }

  ghost function Weight(chunks: seq<Chunk>): (r: nat) {
    |Flat(chunks)| + 2 * |chunks|
  }

  /** The first `k` of the late chunks, joined. */
  function FlatUpTo(late: seq<Chunk>, k: nat): (r: seq<byte>)
    requires k <= |late|
  {
    if k == 0 then [] else FlatUpTo(late, k - 1) + late[k - 1]
  }

  /** The weight of the chunks from `k` on. */
  ghost function WeightFrom(late: seq<Chunk>, k: nat): (r: nat)
    requires k <= |late|
    decreases |late| - k
  {
    if k == |late| then 0 else |late[k]| + 2 + WeightFrom(late, k + 1)
  }

  /** How the socket answers in one turn of the loop; `send_slice` takes at most `accepts` bytes. */
  datatype SocketTurn = SocketTurn(canSend: bool, fails: bool, accepts: nat)

  predicate Takes(turn: SocketTurn) {
    turn.canSend && !turn.fails && turn.accepts > 0
  }

  datatype Turn = Exit(drained: bool) | Continue

  function Min(a: nat, b: nat): (r: nat) {
    if a <= b then a else b
  }

  /** The user-space TCP socket, as far as the bridge sees it: what it takes it keeps in order. */
  class TcpSocket {
    ghost var taken: seq<byte>

    constructor ()
      ensures taken == []
    {
      taken := [];
    }

    /** `send_slice`: the number of bytes taken, or an error. */
    method SendSlice(data: seq<byte>, turn: SocketTurn) returns (n: Option<nat>)
      modifies this
      ensures n == if turn.fails then None else Some(Min(turn.accepts, |data|))
      ensures taken == old(taken) + if n.Some? then data[..n.value] else []
    {
      n := if turn.fails then None else Some(Min(turn.accepts, |data|));
      taken := taken + if n.Some? then data[..n.value] else [];
    }
  }

  class BridgedConn {
    const socket: TcpSocket
    /** The channel from the bridge task. */
    var queue: seq<Chunk>
    var pending: Option<PendingBytes>
    /** Everything the bridge task has queued. */
    ghost var enqueued: seq<byte>

    /** What the socket took, what is left of the current chunk and what is queued are what was enqueued. */
    ghost predicate Valid()
      reads this, socket
    {
      && (pending.Some? ==> pending.value.offset <= |pending.value.bytes|)
      && socket.taken + (Tail() + Flat(queue)) == enqueued
    }

    /** The unsent part of the current chunk. */
    ghost function Tail(): (r: seq<byte>)
      reads this
    {
      if pending.Some? && pending.value.offset <= |pending.value.bytes| then pending.value.Remaining() else []
    }

    /** What the next turn offers the socket. */
    ghost function Offered(): (r: seq<byte>)
      reads this
    {
      if pending.Some? then Tail() else if queue != [] then queue[0] else []
    }

    /** Work left: unsent bytes, with every chunk still to be picked up weighing two more. */
    ghost function Work(): (r: nat)
      reads this
    {
      |Tail()| + Weight(queue) + if pending.Some? then 1 else 0
    }

    constructor (socket: TcpSocket)
      requires socket.taken == []
      ensures Valid() && this.socket == socket && enqueued == []
    {
      this.socket := socket;
      queue, pending := [], None;
      enqueued := [];
    }

    /** Chunks arriving from the bridge task, at any moment. */
    method Enqueue(chunks: seq<Chunk>)
      requires Valid()
      modifies this`queue, this`enqueued
      ensures Valid() && queue == old(queue) + chunks && enqueued == old(enqueued) + Flat(chunks)
      ensures Work() == old(Work()) + Weight(chunks)
    {
      FlatConcat(queue, chunks);
      Associative(Tail(), Flat(queue), Flat(chunks));
      Associative(socket.taken, Tail() + Flat(queue), Flat(chunks));
      queue := queue + chunks;
      enqueued := enqueued + Flat(chunks);
    }

    /**
     The service loop of one connection. `answers(i)` is how the socket behaves in turn `i`, `late` are chunks the
     bridge task queues while the loop is running, `lands(i)` how many of them come in before turn `i`. No byte is
     lost, repeated or moved past another, and the loop ends after turn `last`: either the socket has taken
     everything, or in that turn it did not take what it was offered.
     */
    method Service(answers: nat -> SocketTurn, late: seq<Chunk>, lands: nat -> nat) returns (landed: nat, drained: bool, last: nat)
      requires Valid()
      modifies this, socket
      ensures Valid() && landed <= |late| && enqueued == old(enqueued) + FlatUpTo(late, landed)
      ensures old(socket.taken) <= socket.taken
      ensures if drained then socket.taken == enqueued else !Takes(answers(last))
    {
      landed, last := 0, 0;
      ghost var base, start := enqueued, socket.taken;
      var step := Continue;
      while step.Continue?
        invariant Valid() && landed <= |late| && enqueued == base + FlatUpTo(late, landed)
        invariant start <= socket.taken
        invariant step.Continue? || last > 0
        invariant step.Exit? ==> if step.drained then socket.taken == enqueued else !Takes(answers(last - 1))
        decreases step.Continue?, Work() + WeightFrom(late, landed)
      {
        landed, step := LandAndServe(answers(last), late, landed, lands(last), base);
        last := last + 1;
      }
      drained, last := step.drained, last - 1;
    }

    /** Some late chunks come in, and one turn is served. */
    method LandAndServe(answer: SocketTurn, late: seq<Chunk>, from: nat, n: nat, ghost base: seq<byte>) returns (landed: nat, step: Turn)
      requires Valid() && from <= |late| && enqueued == base + FlatUpTo(late, from)
      modifies this, socket
      ensures Valid() && from <= landed <= |late| && enqueued == base + FlatUpTo(late, landed)
      ensures old(socket.taken) <= socket.taken
      ensures step.Continue? ==> Work() + WeightFrom(late, landed) < old(Work()) + WeightFrom(late, from)
      ensures step == Exit(true) ==> socket.taken == enqueued
      ensures step == Exit(false) ==> !Takes(answer)
    {
      landed := Land(late, from, n, base);
      step := ServeTurn(answer);
    }

    /** The next `n` late chunks come in, or as many as there are. */
    method Land(late: seq<Chunk>, from: nat, n: nat, ghost base: seq<byte>) returns (landed: nat)
      requires Valid() && from <= |late| && enqueued == base + FlatUpTo(late, from)
      modifies this`queue, this`enqueued
      ensures Valid() && from <= landed <= |late| && enqueued == base + FlatUpTo(late, landed)
      ensures Work() + WeightFrom(late, landed) == old(Work()) + WeightFrom(late, from)
    {
      landed := if from + n <= |late| then from + n else |late|;
      LateLand(late, from, landed);
      Associative(base, FlatUpTo(late, from), Flat(late[from..landed]));
      Enqueue(late[from..landed]);
    }

    /** One turn of the service loop: the socket takes what it accepts of what is offered, and nothing else moves. */
    method ServeTurn(answer: SocketTurn) returns (r: Turn)
      requires Valid()
      modifies this`queue, this`pending, socket
      ensures Valid() && socket.taken == old(socket.taken) + Taken(old(Offered()), answer)
      ensures r.Continue? ==> Work() < old(Work())
      ensures r == Exit(true) ==> pending.None? && queue == [] && socket.taken == enqueued
      ensures r == Exit(false) ==> !Takes(answer)
    {
      assert socket.taken + [] == socket.taken;
      if !answer.canSend {
        return Exit(false);
      }
      if pending.None? {
        if queue == [] {
          return Exit(true);
        }
        var bytes := queue[0];
        queue := queue[1..];
        if bytes == [] {
          assert bytes + Flat(queue) == Flat(queue);
          return Continue;
        }
        pending := Some(PendingBytes(bytes, 0));
        assert pending.value.Remaining() == bytes;
      }
      if pending.value.IsComplete() {
        pending := None;
        return Continue;
      }
      var sent := SendRemaining(answer);
      r := if sent then Continue else Exit(false);
    }

    /** Offers the rest of the current chunk and moves on by as much as the socket took. */
    method SendRemaining(answer: SocketTurn) returns (sent: bool)
      requires Valid() && pending.Some? && !pending.value.IsComplete() && answer.canSend
      modifies this`pending, socket
      ensures Valid() && sent == Takes(answer)
      ensures socket.taken == old(socket.taken) + Taken(old(Tail()), answer)
      ensures if sent then Work() < old(Work()) else pending == old(pending)
    {
      var current := pending.value;
      ghost var tail, before := Tail(), socket.taken;
      assert before + [] == before;
      var n := socket.SendSlice(current.Remaining(), answer);
      if n.None? || n.value == 0 {
        return false;
      }
      pending := Some(PendingBytes(current.bytes, current.offset + n.value));
      assert pending.value.Remaining() == tail[n.value..];
      if pending.value.IsComplete() {
        pending := None;
      }
      MoveAcross(before, tail, n.value, Flat(queue));
      sent := true;
    }
  }

  /** What a socket takes of the bytes it is offered. */
  function Taken(offered: seq<byte>, answer: SocketTurn): (r: seq<byte>)
    ensures r <= offered && (Takes(answer) ==> |r| == Min(answer.accepts, |offered|)) && (!Takes(answer) ==> r == [])
  {
    if Takes(answer) then offered[..Min(answer.accepts, |offered|)] else []
  }

  lemma MoveAcross(before: seq<byte>, tail: seq<byte>, n: nat, rest: seq<byte>)
    requires n <= |tail|
    ensures (before + tail[..n]) + (tail[n..] + rest) == before + (tail + rest)
  {
  }

  lemma {:induction false} LateLand(late: seq<Chunk>, k: nat, m: nat)
    requires k <= m <= |late|
    ensures FlatUpTo(late, m) == FlatUpTo(late, k) + Flat(late[k..m])
    ensures WeightFrom(late, k) == Weight(late[k..m]) + WeightFrom(late, m)
    decreases m - k
  {
    if k < m {
      LateLand(late, k + 1, m);
      assert late[k..m][1..] == late[k + 1..m];
      Associative(FlatUpTo(late, k), late[k], Flat(late[k + 1..m]));
    }
  }
}
