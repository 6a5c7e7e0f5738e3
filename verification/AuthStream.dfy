/**
 The authentication handshake as it shares one TCP connection with the session frames that
 follow. The server reads lines through a buffered reader that it throws away at the end; the
 client reads byte by byte. Message contents are any newline-free bytes, and the network hands
 over sent bytes in any chunks.
 */
module AuthStream {
  import opened Octets
  import opened Sequences

  const NEWLINE: byte := 10
  const MAX_AUTH_LINE_BYTES := 16384

  // ---- Reading one line -----------------------------------------------------

  datatype LineResult = Line(bytes: seq<byte>) | TooLong | StreamEnded

  /** `bytes` is one line: a newline at the end and nowhere else. */
  ghost predicate IsLine(bytes: seq<byte>) {
    bytes != [] && bytes[|bytes| - 1] == NEWLINE && NEWLINE !in bytes[..|bytes| - 1]
  }

  /** `read_line_from_stream`: takes exactly one line off the stream, however much more has arrived. */
  method ReadLineFromStream(stream: seq<byte>) returns (r: LineResult, consumed: nat)
    ensures consumed <= |stream|
    ensures r.Line? ==> r.bytes == stream[..consumed] && IsLine(r.bytes) && consumed <= MAX_AUTH_LINE_BYTES
    ensures r.TooLong? ==> consumed == MAX_AUTH_LINE_BYTES && NEWLINE !in stream[..consumed]
    ensures r.StreamEnded? ==> consumed == |stream| < MAX_AUTH_LINE_BYTES && NEWLINE !in stream
  {
    var buf: seq<byte> := [];
    consumed := 0;
    while consumed < |stream|
      invariant consumed <= |stream| && consumed < MAX_AUTH_LINE_BYTES
      invariant buf == stream[..consumed] && NEWLINE !in buf
    {
      var b := stream[consumed];
      buf := buf + [b];
      consumed := consumed + 1;
      if b == NEWLINE {
        return Line(buf), consumed;
      }
      if |buf| >= MAX_AUTH_LINE_BYTES {
        return TooLong, consumed;
      }
    }
    assert stream[..|stream|] == stream;
    r := StreamEnded;
  }

  function Chunks(chunks: seq<seq<byte>>): (r: seq<byte>) {
    if chunks == [] then [] else Chunks(chunks[..|chunks| - 1]) + chunks[|chunks| - 1]
  }

  /** Where the first newline ends, or the whole length if there is none. */
  function LineEnd(bytes: seq<byte>): (r: nat)
    ensures r <= |bytes|
    ensures NEWLINE in bytes ==> IsLine(bytes[..r])
    ensures NEWLINE !in bytes ==> r == |bytes|
  {
    if bytes == [] then 0
    else if bytes[0] == NEWLINE then 1
    else
      var r := 1 + LineEnd(bytes[1..]);
      assert bytes[..r] == [bytes[0]] + bytes[1..][..r - 1];
      assert NEWLINE in bytes <==> NEWLINE in bytes[1..];
      assert NEWLINE in bytes ==> bytes[..r][..r - 1] == [bytes[0]] + bytes[1..][..r - 1][..r - 2];
      r
  }

  /** `AtEnd` is a last line cut short by the end of the stream; `Waiting` has no line yet. */
  datatype ReadLineResult = FullLine(bytes: seq<byte>) | AtEnd(bytes: seq<byte>) | Waiting

  class BufferedReader {
    var buf: seq<byte>

    constructor ()
      ensures buf == []
    {
      buf := [];
    }

    /**
     `read_line`. `chunks` are what reads on the socket return, an empty one being the end of the stream.
     A read is made only when the buffer is empty and the line still unfinished, so what stays buffered
     is the rest of the last chunk.
     */
    method ReadLine(chunks: seq<seq<byte>>) returns (r: ReadLineResult, used: nat)
      modifies this
      ensures used <= |chunks|
      ensures r.FullLine? ==> IsLine(r.bytes) && r.bytes + buf == old(buf) + Chunks(chunks[..used])
      ensures r.FullLine? && used > 0 ==> NEWLINE !in old(buf) + Chunks(chunks[..used - 1])
      ensures r.AtEnd? ==> r.bytes == old(buf) + Chunks(chunks[..used]) && NEWLINE !in r.bytes && buf == []
      ensures r.Waiting? ==> used == |chunks| && NEWLINE !in old(buf) + Chunks(chunks) && buf == []
    {
      var line: seq<byte> := [];
      used := 0;
      assert old(buf) + Chunks(chunks[..0]) == old(buf);
      while true
        invariant used <= |chunks|
        invariant line + buf == old(buf) + Chunks(chunks[..used])
        invariant NEWLINE !in line
        invariant used > 0 ==> NEWLINE !in old(buf) + Chunks(chunks[..used - 1])
        decreases |chunks| - used, |buf|
      {
        if buf == [] {
          assert line + buf == line;
          if used == |chunks| {
            assert chunks[..used] == chunks;
            return Waiting, used;
          }
          assert chunks[..used + 1][..used] == chunks[..used];
          Associative(old(buf), Chunks(chunks[..used]), chunks[used]);
          buf := chunks[used];
          used := used + 1;
          if buf == [] {
            return AtEnd(line), used;
          }
        } else {
          var n := LineEnd(buf);
          assert (line + buf[..n]) + buf[n..] == line + buf;
          if NEWLINE in buf {
            LineAfterPartial(line, buf[..n]);
            r := FullLine(line + buf[..n]);
            buf := buf[n..];
            return;
          }
          line := line + buf[..n];
          buf := buf[n..];
        }
      }
    }
  }

  lemma LineAfterPartial(partial: seq<byte>, rest: seq<byte>)
    requires NEWLINE !in partial && IsLine(rest)
    ensures IsLine(partial + rest)
  {
  }

  // ---- The two sides --------------------------------------------------------

  /** The messages of one connection; `rejection` is the status line for an unauthorised key. */
  datatype Script = Script(hello: seq<byte>, challenge: seq<byte>, rejection: seq<byte>, proof: seq<byte>, ok: seq<byte>)

  ghost predicate WellFormed(m: Script) {
    && IsLine(m.hello) && IsLine(m.challenge) && IsLine(m.rejection) && IsLine(m.proof) && IsLine(m.ok)
    && m.challenge != m.rejection
  }

  datatype ClientPhase = Starting | AwaitingChallenge | AwaitingStatus | ClientFraming | TurnedAway

  /** In `Verified` the server has sent its status but still holds the buffered reader. */
  datatype ServerPhase = AwaitingHello | AwaitingProof | Verified | ServerFraming | Refused

  /**
   A side that has failed or gone away takes no more steps. What it had not yet written is lost; what
   it wrote is still under way, and the other side reads the end of the stream behind it.
   */
  datatype State = State(
    clientUp: bool,
    serverUp: bool,
    client: ClientPhase,
    clientOut: seq<byte>,      // the part of its message the client has still to write
    clientLine: seq<byte>,     // the client's line so far
    clientFrames: seq<byte>,   // frame bytes the client has written
    clientInput: seq<byte>,    // bytes the client's frame reader has read
    server: ServerPhase,
    serverOut: seq<byte>,      // the part of its message the server has still to write
    serverLine: seq<byte>,     // the server's line so far
    serverBuf: seq<byte>,      // read ahead by the buffered reader
    serverFrames: seq<byte>,   // frame bytes the server has written
    serverInput: seq<byte>,    // bytes the server's frame reader has read
    dropped: seq<byte>,        // bytes thrown away with the buffered reader
    toServer: seq<byte>,       // written, not yet read
    toClient: seq<byte>)

  const START: State := State(true, true, Starting, [], [], [], [], AwaitingHello, [], [], [], [], [], [], [], [])

  datatype Step =
    | SendHello
    | ClientWrites(n: nat)           // n bytes of its message go out
    | ServerWrites(n: nat)
    | ServerFill(n: nat)             // the buffered reader, empty, reads n bytes
    | ServerScan(agrees: bool)       // it moves bytes into the line; a finished line is judged
    | ServerEof(agrees: bool)        // it reads the end of the stream; the line so far is judged as it is
    | DropReader
    | ClientByte                     // read_u8; a finished line is judged
    | ClientSends(frames: seq<byte>)
    | ServerSends(frames: seq<byte>)
    | ClientReads(n: nat)
    | ServerReads(n: nat)
    | ClientAborts                   // any failure of the client, also one in the middle of a message
    | ServerAborts

  predicate Listening(s: State) {
    s.serverUp && s.serverOut == [] && (s.server == AwaitingHello || s.server == AwaitingProof)
  }

  predicate Enabled(s: State, e: Step) {
    match e
    case SendHello => s.clientUp && s.client == Starting
    case ClientWrites(n) => s.clientUp && 0 < n <= |s.clientOut|
    case ServerWrites(n) => s.serverUp && 0 < n <= |s.serverOut|
    case ServerFill(n) => Listening(s) && s.serverBuf == [] && 0 < n <= |s.toServer|
    case ServerScan(_) => Listening(s) && s.serverBuf != []
    case ServerEof(_) => Listening(s) && s.serverBuf == [] == s.toServer && !s.clientUp
    case DropReader => s.serverUp && s.serverOut == [] && s.server == Verified
    case ClientByte =>
      s.clientUp && s.clientOut == [] && (s.client == AwaitingChallenge || s.client == AwaitingStatus) && s.toClient != []
    case ClientSends(_) => s.clientUp && s.client == ClientFraming
    case ServerSends(_) => s.serverUp && s.server == ServerFraming
    case ClientReads(n) => s.clientUp && s.client == ClientFraming && 0 < n <= |s.toClient|
    case ServerReads(n) => s.serverUp && s.server == ServerFraming && 0 < n <= |s.toServer|
    case ClientAborts => true
    case ServerAborts => true
  }

  /** The server has read `line` and reacts to it. */
  function JudgeServerLine(s: State, m: Script, line: seq<byte>, agrees: bool): (r: State) {
    if s.server == AwaitingHello then
      if line != m.hello then s.(server := Refused)
      else if agrees then s.(server := AwaitingProof, serverOut := m.challenge)
      else s.(server := Refused, serverOut := m.rejection)
    else
      if line != m.proof || !agrees then s.(server := Refused)
      else s.(server := Verified, serverOut := m.ok)
  }

  /** The client has read `line` whole and reacts to it. */
  function JudgeClientLine(s: State, m: Script, line: seq<byte>): (r: State) {
    if s.client == AwaitingChallenge && line == m.challenge then s.(client := AwaitingStatus, clientOut := m.proof)
    else if s.client == AwaitingStatus && line == m.ok then s.(client := ClientFraming)
    else s.(client := TurnedAway)
  }

  function Apply(s: State, m: Script, e: Step): (r: State)
    requires Enabled(s, e)
  {
    match e
    case SendHello => s.(client := AwaitingChallenge, clientOut := m.hello)
    case ClientWrites(n) => s.(toServer := s.toServer + s.clientOut[..n], clientOut := s.clientOut[n..])
    case ServerWrites(n) => s.(toClient := s.toClient + s.serverOut[..n], serverOut := s.serverOut[n..])
    case ServerFill(n) => s.(serverBuf := s.toServer[..n], toServer := s.toServer[n..])
    case ServerScan(agrees) =>
      var n := LineEnd(s.serverBuf);
      var line, rest := s.serverLine + s.serverBuf[..n], s.serverBuf[n..];
      if NEWLINE in s.serverBuf then JudgeServerLine(s.(serverLine := [], serverBuf := rest), m, line, agrees)
      else s.(serverLine := line, serverBuf := rest)
    case ServerEof(agrees) =>
      // Nothing read is an error. Otherwise only the text before the newline is parsed, so the newline may be missing.
      if s.serverLine == [] then s.(server := Refused)
      else JudgeServerLine(s.(serverLine := []), m, s.serverLine + [NEWLINE], agrees)
    case DropReader => s.(server := ServerFraming, dropped := s.serverBuf, serverBuf := [])
    case ClientByte =>
      var line, rest := s.clientLine + [s.toClient[0]], s.toClient[1..];
      if s.toClient[0] == NEWLINE then JudgeClientLine(s.(clientLine := [], toClient := rest), m, line)
      else s.(clientLine := line, toClient := rest, clientUp := |line| < MAX_AUTH_LINE_BYTES)
    case ClientSends(frames) => s.(clientFrames := s.clientFrames + frames, toServer := s.toServer + frames)
    case ServerSends(frames) => s.(serverFrames := s.serverFrames + frames, toClient := s.toClient + frames)
    case ClientReads(n) => s.(clientInput := s.clientInput + s.toClient[..n], toClient := s.toClient[n..])
    case ServerReads(n) => s.(serverInput := s.serverInput + s.toServer[..n], toServer := s.toServer[n..])
    case ClientAborts => s.(clientUp := false, clientOut := [])
    case ServerAborts => s.(serverUp := false, serverOut := [])
  }

  predicate IsRun(s: State, m: Script, steps: seq<Step>)
    decreases |steps|
  {
    steps == [] || (Enabled(s, steps[0]) && IsRun(Apply(s, m, steps[0]), m, steps[1..]))
  }

  function After(s: State, m: Script, steps: seq<Step>): (r: State)
    requires IsRun(s, m, steps)
    decreases |steps|
  {
    if steps == [] then s else After(Apply(s, m, steps[0]), m, steps[1..])
  }

  // ---- What every run keeps -------------------------------------------------

  /** Bytes on their way to the server, from its unfinished line on. */
  function ServerBound(s: State): (r: seq<byte>) {
    s.serverLine + s.serverBuf + s.toServer + s.clientOut
  }

  function ClientBound(s: State): (r: seq<byte>) {
    s.clientLine + s.toClient + s.serverOut
  }

  /** A message under way: all of it, or the beginning of it if its sender has failed. */
  ghost predicate UnderWay(bytes: seq<byte>, message: seq<byte>, senderUp: bool) {
    bytes <= message && (senderUp ==> bytes == message)
  }

  /** No frame has been written or read on either side. */
  ghost predicate Quiet(s: State) {
    s.clientFrames == [] == s.clientInput && s.serverFrames == [] == s.serverInput && s.dropped == []
  }

  ghost predicate HelloInv(s: State, m: Script) {
    && Quiet(s) && ClientBound(s) == []
    && match s.client
       case Starting => ServerBound(s) == []
       case AwaitingChallenge => UnderWay(ServerBound(s), m.hello, s.clientUp)
       case _ => false
  }

  ghost predicate ProofInv(s: State, m: Script) {
    && Quiet(s)
    && match s.client
       case AwaitingChallenge => ServerBound(s) == [] && UnderWay(ClientBound(s), m.challenge, s.serverUp)
       case AwaitingStatus => UnderWay(ServerBound(s), m.proof, s.clientUp) && ClientBound(s) == []
       case _ => false
  }

  /** A refused client is told, or has just sent a proof, or has failed itself. */
  ghost predicate RefusedInv(s: State, m: Script) {
    && Quiet(s) && s.client != ClientFraming
    && (s.clientUp ==>
          match s.client
          case AwaitingChallenge => s.clientOut == [] && UnderWay(ClientBound(s), m.rejection, s.serverUp)
          case AwaitingStatus => ClientBound(s) == []
          case TurnedAway => true
          case _ => false)
  }

  /** After verification every byte to the server is a frame byte, and to the client all that follows the status line. */
  ghost predicate FramingInv(s: State, m: Script) {
    && s.serverLine == [] == s.serverBuf && s.dropped == [] && s.clientOut == []
    && s.serverInput + s.toServer == s.clientFrames
    && match s.client
       case AwaitingStatus => s.clientFrames == [] == s.clientInput && StatusUnderWay(s, m)
       case ClientFraming => s.serverOut == [] && s.clientInput + s.toClient == s.serverFrames
       case _ => false
  }

  /** The status line with the frames behind it, or as much of it as the server wrote before it failed. */
  ghost predicate StatusUnderWay(s: State, m: Script) {
    if s.server == Verified then s.serverFrames == [] && UnderWay(ClientBound(s), m.ok, s.serverUp)
    else s.serverOut == [] && s.clientLine + s.toClient == m.ok + s.serverFrames
  }

  /** The two sides are in lock step: one message, or a stretch of frames, is under way. */
  ghost predicate Inv(s: State, m: Script) {
    && NEWLINE !in s.clientLine && NEWLINE !in s.serverLine
    && (!s.clientUp ==> s.clientOut == []) && (!s.serverUp ==> s.serverOut == [])
    && match s.server
       case AwaitingHello => HelloInv(s, m) && s.serverOut == []
       case AwaitingProof => ProofInv(s, m)
       case Refused => RefusedInv(s, m)
       case Verified => FramingInv(s, m) && s.serverFrames == [] == s.serverInput
       case ServerFraming => FramingInv(s, m)
  }

  /** A stream has one first line. */
  lemma FirstLineIsUnique(a: seq<byte>, x: seq<byte>, b: seq<byte>, y: seq<byte>)
    requires IsLine(a) && IsLine(b) && a + x == b + y
    ensures a == b && x == y
  {
    NewlineEndsIt(a, x);
    NewlineEndsIt(b, y);
    assert a == (a + x)[..|a|] && b == (b + y)[..|b|];
    assert x == (a + x)[|a|..] && y == (b + y)[|b|..];
  }

  lemma NewlineEndsIt(line: seq<byte>, rest: seq<byte>)
    requires IsLine(line)
    ensures (line + rest)[|line| - 1] == NEWLINE
    ensures forall i | 0 <= i < |line| - 1 :: (line + rest)[i] != NEWLINE
  {
  }

  /** A message has no line in it but itself, and none if it is cut short. */
  lemma CutLineIsNoLine(line: seq<byte>, message: seq<byte>, rest: seq<byte>)
    requires IsLine(line) && IsLine(message) && line + rest <= message
    ensures line == message && rest == []
  {
    var lost := message[|line + rest|..];
    assert line + (rest + lost) == message + [];
    FirstLineIsUnique(line, rest + lost, message, []);
  }

  /** The buffered reader empties itself when it finishes the only line under way. */
  lemma ServerLineIsWhole(s: State, message: seq<byte>)
    requires NEWLINE !in s.serverLine && NEWLINE in s.serverBuf && IsLine(message) && ServerBound(s) <= message
    ensures var n := LineEnd(s.serverBuf);
            s.serverLine + s.serverBuf[..n] == message && s.serverBuf[n..] == [] && s.toServer == [] && s.clientOut == []
  {
    var n := LineEnd(s.serverBuf);
    LineAfterPartial(s.serverLine, s.serverBuf[..n]);
    Regroup(s.serverLine, s.serverBuf, n, s.toServer + s.clientOut);
    Associative(s.serverLine + s.serverBuf, s.toServer, s.clientOut);
    CutLineIsNoLine(s.serverLine + s.serverBuf[..n], message, s.serverBuf[n..] + (s.toServer + s.clientOut));
  }

  lemma Regroup(a: seq<byte>, b: seq<byte>, n: nat, c: seq<byte>)
    requires n <= |b|
    ensures (a + b[..n]) + (b[n..] + c) == a + b + c
  {
  }

  lemma ScanKeepsInv(s: State, m: Script, agrees: bool)
    requires WellFormed(m) && Inv(s, m) && Enabled(s, ServerScan(agrees))
    ensures Inv(Apply(s, m, ServerScan(agrees)), m)
  {
    var n := LineEnd(s.serverBuf);
    if NEWLINE in s.serverBuf {
      assert ServerBound(s) != [];
      ServerLineIsWhole(s, if s.server == AwaitingHello then m.hello else m.proof);
    } else {
      assert s.serverBuf[..n] == s.serverBuf;
    }
  }

  lemma EofKeepsInv(s: State, m: Script, agrees: bool)
    requires WellFormed(m) && Inv(s, m) && Enabled(s, ServerEof(agrees))
    ensures Inv(Apply(s, m, ServerEof(agrees)), m)
  {
    if s.server == AwaitingHello { HelloEofKeepsInv(s, m, agrees); } else { ProofEofKeepsInv(s, m, agrees); }
  }

  lemma HelloEofKeepsInv(s: State, m: Script, agrees: bool)
    requires WellFormed(m) && Inv(s, m) && Enabled(s, ServerEof(agrees)) && s.server == AwaitingHello
    ensures Inv(Apply(s, m, ServerEof(agrees)), m)
  {
    var r := Apply(s, m, ServerEof(agrees));
    assert HelloInv(s, m) && s.clientOut == [];
    if r.server == AwaitingProof {
      assert s.client == AwaitingChallenge by { assert ServerBound(s) != []; }
      ChallengeGoesOut(r, m);
    } else {
      GoneIsRefused(r, m);
    }
  }

  lemma ChallengeGoesOut(s: State, m: Script)
    requires s.server == AwaitingProof && s.client == AwaitingChallenge && s.serverUp && Quiet(s)
    requires s.clientLine == [] == s.toClient && s.serverOut == m.challenge
    requires s.serverLine == [] == s.serverBuf && s.toServer == [] == s.clientOut
    ensures Inv(s, m)
  {
    assert ServerBound(s) == [] && ClientBound(s) == m.challenge;
  }

  /** Nothing more is asked of a client that has failed. */
  lemma GoneIsRefused(s: State, m: Script)
    requires s.server == Refused && !s.clientUp && s.serverUp && s.client != ClientFraming && Quiet(s) && s.clientOut == []
    requires NEWLINE !in s.clientLine && NEWLINE !in s.serverLine
    ensures Inv(s, m)
  {
  }

  lemma ProofEofKeepsInv(s: State, m: Script, agrees: bool)
    requires WellFormed(m) && Inv(s, m) && Enabled(s, ServerEof(agrees)) && s.server == AwaitingProof
    ensures Inv(Apply(s, m, ServerEof(agrees)), m)
  {
    assert s.client == AwaitingChallenge ==> s.serverLine == [];
  }

  /** The line the client is in the middle of, and what follows it on the stream. */
  ghost function Under(s: State, m: Script): (r: (seq<byte>, seq<byte>)) {
    if s.server == AwaitingProof then (m.challenge, [])
    else if s.server == Refused then (m.rejection, [])
    else (m.ok, s.serverFrames)
  }

  lemma ClientReadsThatLine(s: State, m: Script)
    requires WellFormed(m) && Inv(s, m) && Enabled(s, ClientByte) && s.toClient[0] == NEWLINE
    ensures s.clientLine + [s.toClient[0]] == Under(s, m).0 && s.toClient[1..] == Under(s, m).1 && s.serverOut == []
  {
    var (message, frames) := Under(s, m);
    var line, rest := s.clientLine + [s.toClient[0]], s.toClient[1..];
    assert line[..|line| - 1] == s.clientLine;
    MoveOne(s.clientLine, s.toClient);
    if s.server == ServerFraming {
      FirstLineIsUnique(line, rest, message, frames);
    } else {
      Associative(line, rest, s.serverOut);
      CutLineIsNoLine(line, message, rest + s.serverOut);
    }
  }

  lemma ClientByteKeepsInv(s: State, m: Script)
    requires WellFormed(m) && Inv(s, m) && Enabled(s, ClientByte)
    ensures Inv(Apply(s, m, ClientByte), m)
  {
    if s.toClient[0] == NEWLINE { LineEndKeepsInv(s, m); } else { MidLineKeepsInv(s, m); }
  }

  lemma MidLineKeepsInv(s: State, m: Script)
    requires Inv(s, m) && Enabled(s, ClientByte) && s.toClient[0] != NEWLINE
    ensures Inv(Apply(s, m, ClientByte), m)
  {
    MoveOne(s.clientLine, s.toClient);
  }

  lemma LineEndKeepsInv(s: State, m: Script)
    requires WellFormed(m) && Inv(s, m) && Enabled(s, ClientByte) && s.toClient[0] == NEWLINE
    ensures Inv(Apply(s, m, ClientByte), m)
  {
    ClientReadsThatLine(s, m);
    match s.server
    case AwaitingProof => ChallengeReadKeepsInv(s, m);
    case Refused => RejectionReadKeepsInv(s, m);
    case _ => StatusReadKeepsInv(s, m);
  }

  lemma ChallengeReadKeepsInv(s: State, m: Script)
    requires WellFormed(m) && Inv(s, m) && Enabled(s, ClientByte) && s.toClient[0] == NEWLINE && s.server == AwaitingProof
    requires s.clientLine + [s.toClient[0]] == m.challenge && s.toClient[1..] == [] == s.serverOut
    ensures Inv(Apply(s, m, ClientByte), m)
  {
    assert ProofInv(s, m) && s.client == AwaitingChallenge by { assert ClientBound(s) != []; }
    assert s.serverLine == [] == s.serverBuf && s.toServer == [] by { assert ServerBound(s) == []; }
    assert Apply(s, m, ClientByte) == s.(client := AwaitingStatus, clientLine := [], toClient := [], clientOut := m.proof);
    ProofGoesOut(s.(client := AwaitingStatus, clientLine := [], toClient := [], clientOut := m.proof), m);
  }

  lemma ProofGoesOut(s: State, m: Script)
    requires s.server == AwaitingProof && s.client == AwaitingStatus && s.clientUp && Quiet(s)
    requires s.clientLine == [] == s.toClient && s.serverOut == []
    requires s.serverLine == [] == s.serverBuf && s.toServer == [] && s.clientOut == m.proof
    ensures Inv(s, m)
  {
    assert ServerBound(s) == m.proof && ClientBound(s) == [];
  }

  lemma RejectionReadKeepsInv(s: State, m: Script)
    requires WellFormed(m) && Inv(s, m) && Enabled(s, ClientByte) && s.toClient[0] == NEWLINE && s.server == Refused
    requires s.clientLine + [s.toClient[0]] == m.rejection
    ensures Inv(Apply(s, m, ClientByte), m)
  {
  }

  lemma StatusReadKeepsInv(s: State, m: Script)
    requires WellFormed(m) && Inv(s, m) && Enabled(s, ClientByte) && s.toClient[0] == NEWLINE
    requires s.server == Verified || s.server == ServerFraming
    requires s.clientLine + [s.toClient[0]] == m.ok && s.toClient[1..] == s.serverFrames && s.serverOut == []
    ensures Inv(Apply(s, m, ClientByte), m)
  {
    assert s.client == AwaitingStatus;
  }

  lemma MoveOne(a: seq<byte>, b: seq<byte>)
    requires b != []
    ensures (a + [b[0]]) + b[1..] == a + b
  {
  }

  /** Writing more of a message leaves what is under way as it is. */
  lemma WriteKeepsInv(s: State, m: Script, e: Step)
    requires Inv(s, m) && Enabled(s, e) && (e.ClientWrites? || e.ServerWrites?)
    ensures Inv(Apply(s, m, e), m)
  {
    match e
    case ClientWrites(n) =>
      MoveOut(s.serverLine + s.serverBuf, s.toServer, s.clientOut, n);
    case ServerWrites(n) =>
      MoveOut(s.clientLine, s.toClient, s.serverOut, n);
  }

  lemma MoveOut(before: seq<byte>, written: seq<byte>, out: seq<byte>, n: nat)
    requires n <= |out|
    ensures before + (written + out[..n]) + out[n..] == before + written + out
  {
  }

  /** A failing side loses the end of its message. */
  lemma AbortKeepsInv(s: State, m: Script, e: Step)
    requires Inv(s, m) && (e.ClientAborts? || e.ServerAborts?)
    ensures Inv(Apply(s, m, e), m)
  {
    LoseEnd(s.serverLine + s.serverBuf + s.toServer, s.clientOut);
    LoseEnd(s.clientLine + s.toClient, s.serverOut);
  }

  lemma LoseEnd(sent: seq<byte>, out: seq<byte>)
    ensures sent + [] <= sent + out
  {
  }

  /** Frames written and read on either side. */
  lemma FrameStepKeepsInv(s: State, m: Script, e: Step)
    requires Inv(s, m) && Enabled(s, e) && (e.ClientSends? || e.ServerSends? || e.ClientReads? || e.ServerReads?)
    ensures Inv(Apply(s, m, e), m)
  {
    match e
    case ClientSends(frames) =>
      Associative(s.serverInput, s.toServer, frames);
    case ServerSends(frames) =>
      Associative(s.clientInput, s.toClient, frames);
      Associative(s.clientLine, s.toClient, frames);
      Associative(m.ok, s.serverFrames, frames);
    case ClientReads(n) =>
      SplitAt(s.clientInput, s.toClient, n);
    case ServerReads(n) =>
      SplitAt(s.serverInput, s.toServer, n);
  }

  lemma SplitAt(before: seq<byte>, bytes: seq<byte>, n: nat)
    requires n <= |bytes|
    ensures (before + bytes[..n]) + bytes[n..] == before + bytes
  {
  }

  lemma HelloKeepsInv(s: State, m: Script)
    requires Inv(s, m) && Enabled(s, SendHello)
    ensures Inv(Apply(s, m, SendHello), m)
  {
    assert ServerBound(Apply(s, m, SendHello)) == m.hello;
  }

  lemma FillKeepsInv(s: State, m: Script, n: nat)
    requires Inv(s, m) && Enabled(s, ServerFill(n))
    ensures Inv(Apply(s, m, ServerFill(n)), m)
  {
    assert ServerBound(Apply(s, m, ServerFill(n))) == ServerBound(s);
  }

  lemma DropKeepsInv(s: State, m: Script)
    requires Inv(s, m) && Enabled(s, DropReader)
    ensures Inv(Apply(s, m, DropReader), m)
  {
  }

  lemma StepKeepsInv(s: State, m: Script, e: Step)
    requires WellFormed(m) && Inv(s, m) && Enabled(s, e)
    ensures Inv(Apply(s, m, e), m)
  {
    match e
    case SendHello => HelloKeepsInv(s, m);
    case ClientWrites(n) => WriteKeepsInv(s, m, e);
    case ServerWrites(n) => WriteKeepsInv(s, m, e);
    case ServerFill(n) => FillKeepsInv(s, m, n);
    case ServerScan(agrees) => ScanKeepsInv(s, m, agrees);
    case ServerEof(agrees) => EofKeepsInv(s, m, agrees);
    case ClientByte => ClientByteKeepsInv(s, m);
    case DropReader => DropKeepsInv(s, m);
    case ClientAborts => AbortKeepsInv(s, m, e);
    case ServerAborts => AbortKeepsInv(s, m, e);
    case _ => FrameStepKeepsInv(s, m, e);
  }

  lemma {:induction false} EveryRunKeepsInv(s: State, m: Script, steps: seq<Step>)
    requires WellFormed(m) && Inv(s, m) && IsRun(s, m, steps)
    ensures Inv(After(s, m, steps), m)
    decreases |steps|
  {
    if steps != [] {
      StepKeepsInv(s, m, steps[0]);
      EveryRunKeepsInv(Apply(s, m, steps[0]), m, steps[1..]);
    }
  }

  /**
   In every run, with any chunking and any failures: the server's buffered reader is thrown away
   empty, and each side's frame reader sees exactly the frame bytes the other side wrote, from the
   first length prefix on, with none lost to the handshake and none left over from it.
   */
  lemma HandoverAtFrameBoundary(m: Script, steps: seq<Step>)
    requires WellFormed(m) && IsRun(START, m, steps)
    ensures var s := After(START, m, steps);
            && s.dropped == [] && (s.server == Verified ==> s.serverBuf == [])
            && (s.server == ServerFraming ==> s.serverInput + s.toServer == s.clientFrames)
            && (s.client == ClientFraming ==> s.clientInput + s.toClient == s.serverFrames)
            && (s.client == ClientFraming ==> s.server == Verified || s.server == ServerFraming)
  {
    EveryRunKeepsInv(START, m, steps);
  }

  // ---- The handshake does complete ------------------------------------------

  lemma {:induction false} RunAppend(s: State, m: Script, a: seq<Step>, b: seq<Step>)
    requires IsRun(s, m, a) && IsRun(After(s, m, a), m, b)
    ensures IsRun(s, m, a + b) && After(s, m, a + b) == After(After(s, m, a), m, b)
    decreases |a|
  {
    if a == [] {
      assert a + b == b;
    } else {
      RunAppend(Apply(s, m, a[0]), m, a[1..], b);
      assert (a + b)[1..] == a[1..] + b;
    }
  }

  lemma OneStep(s: State, m: Script, e: Step)
    requires Enabled(s, e)
    ensures IsRun(s, m, [e]) && After(s, m, [e]) == Apply(s, m, e)
  {
    assert [e][1..] == [];
  }

  lemma LineEndOfLine(line: seq<byte>)
    requires IsLine(line)
    ensures LineEnd(line) == |line| && line[..LineEnd(line)] == line && line[LineEnd(line)..] == []
  {
    var n := LineEnd(line);
    assert NEWLINE in line;
    assert line[..n] + line[n..] == line + [];
    FirstLineIsUnique(line[..n], line[n..], line, []);
  }

  /** The client writes a message and the server, waiting for it, reads and judges it. */
  lemma ServerGetsLine(s: State, m: Script, line: seq<byte>) returns (steps: seq<Step>)
    requires IsLine(line) && s.clientUp && Listening(s) && s.clientOut == line
    requires s.serverLine == [] == s.serverBuf && s.toServer == []
    ensures IsRun(s, m, steps) && After(s, m, steps) == JudgeServerLine(s.(clientOut := []), m, line, true)
  {
    LineEndOfLine(line);
    var n := |line|;
    assert line[..n] == line && line[n..] == [] && [] + line == line && NEWLINE in line;
    var s1 := Apply(s, m, ClientWrites(n));
    assert s1 == s.(toServer := line, clientOut := []);
    var s2 := Apply(s1, m, ServerFill(n));
    assert s2 == s.(serverBuf := line, clientOut := []);
    OneStep(s, m, ClientWrites(n));
    OneStep(s1, m, ServerFill(n));
    OneStep(s2, m, ServerScan(true));
    RunAppend(s, m, [ClientWrites(n)], [ServerFill(n)]);
    steps := [ClientWrites(n)] + [ServerFill(n)];
    RunAppend(s, m, steps, [ServerScan(true)]);
    steps := steps + [ServerScan(true)];
  }

  /** The client reads a line that has arrived, byte by byte, and judges it. */
  lemma {:induction false} ClientGetsLine(s: State, m: Script, line: seq<byte>) returns (steps: seq<Step>)
    requires IsLine(line) && |line| <= MAX_AUTH_LINE_BYTES && s.clientUp && s.clientOut == []
    requires s.client == AwaitingChallenge || s.client == AwaitingStatus
    requires s.clientLine + s.toClient == line && |s.clientLine| < |line|
    ensures IsRun(s, m, steps) && After(s, m, steps) == JudgeClientLine(s.(clientLine := [], toClient := []), m, line)
    decreases |s.toClient|
  {
    var k := |s.clientLine|;
    assert s.toClient[0] == line[k];
    OneStep(s, m, ClientByte);
    MoveOne(s.clientLine, s.toClient);
    steps := [ClientByte];
    if k == |line| - 1 {
      assert s.toClient[1..] == [] && s.clientLine + [s.toClient[0]] == line;
    } else {
      assert line[k] == line[..|line| - 1][k];
      var rest := ClientGetsLine(Apply(s, m, ClientByte), m, line);
      RunAppend(s, m, steps, rest);
      steps := steps + rest;
    }
  }

  /** The server writes its message whole and the client reads it. */
  lemma ClientIsTold(s: State, m: Script, line: seq<byte>) returns (steps: seq<Step>)
    requires IsLine(line) && |line| <= MAX_AUTH_LINE_BYTES && s.clientUp && s.serverUp && s.clientOut == [] && s.serverOut == line
    requires (s.client == AwaitingChallenge || s.client == AwaitingStatus) && s.clientLine == [] == s.toClient
    ensures IsRun(s, m, steps) && After(s, m, steps) == JudgeClientLine(s.(serverOut := []), m, line)
  {
    var n := |line|;
    assert [] + line[..n] == line && line[n..] == [] && [] + line == line;
    var s1 := Apply(s, m, ServerWrites(n));
    assert s1 == s.(toClient := line, serverOut := []);
    OneStep(s, m, ServerWrites(n));
    steps := ClientGetsLine(s1, m, line);
    RunAppend(s, m, [ServerWrites(n)], steps);
    steps := [ServerWrites(n)] + steps;
  }

  /** Whatever the messages, as long as the client's limit admits them, there is a run that takes both sides to framing. */
  lemma HandshakeCompletes(m: Script) returns (steps: seq<Step>)
    requires WellFormed(m) && |m.challenge| <= MAX_AUTH_LINE_BYTES && |m.ok| <= MAX_AUTH_LINE_BYTES
    ensures IsRun(START, m, steps)
    ensures var s := After(START, m, steps);
            s.client == ClientFraming && s.server == ServerFraming && s.clientUp && s.serverUp
  {
    OneStep(START, m, SendHello);
    var s := Apply(START, m, SendHello);
    steps := [SendHello];
    var more := ServerGetsLine(s, m, m.hello);
    RunAppend(START, m, steps, more);
    s, steps := s.(clientOut := [], server := AwaitingProof, serverOut := m.challenge), steps + more;
    more := ClientIsTold(s, m, m.challenge);
    RunAppend(START, m, steps, more);
    s, steps := s.(serverOut := [], client := AwaitingStatus, clientOut := m.proof), steps + more;
    more := ServerGetsLine(s, m, m.proof);
    RunAppend(START, m, steps, more);
    s, steps := s.(clientOut := [], server := Verified, serverOut := m.ok), steps + more;
    more := ClientIsTold(s, m, m.ok);
    RunAppend(START, m, steps, more);
    s, steps := s.(serverOut := [], client := ClientFraming), steps + more;
    OneStep(s, m, DropReader);
    RunAppend(START, m, steps, [DropReader]);
    steps := steps + [DropReader];
  }

  /** At the end of the stream a message that lacks only its newline is judged like the whole; any other rest is refused. */
  lemma CutMessageIsJudged(s: State, m: Script, agrees: bool)
    requires WellFormed(m) && Enabled(s, ServerEof(agrees)) && NEWLINE !in s.serverLine
    ensures var r, message := Apply(s, m, ServerEof(agrees)), if s.server == AwaitingHello then m.hello else m.proof;
            if s.serverLine != [] && s.serverLine == message[..|message| - 1]
            then r == JudgeServerLine(s.(serverLine := []), m, message, agrees)
            else r.server == Refused && r.serverOut == s.serverOut
  {
    var message := if s.server == AwaitingHello then m.hello else m.proof;
    assert message == message[..|message| - 1] + [NEWLINE];
    if s.serverLine + [NEWLINE] == message {
      assert s.serverLine == (s.serverLine + [NEWLINE])[..|s.serverLine|];
    }
  }

  /** A line that reaches the limit without a newline is the end of the client. */
  lemma LongLineFails(s: State, m: Script)
    requires Enabled(s, ClientByte) && s.toClient[0] != NEWLINE
    ensures Apply(s, m, ClientByte).clientUp <==> |s.clientLine| + 1 < MAX_AUTH_LINE_BYTES
  {
  }

  /** Once framing, each side's frames go out behind those it wrote before. */
  lemma FramesGoOut(s: State, m: Script, frames: seq<byte>)
    ensures Enabled(s, ClientSends(frames)) ==>
              var r := Apply(s, m, ClientSends(frames));
              r.clientFrames == s.clientFrames + frames && r.toServer == s.toServer + frames
    ensures Enabled(s, ServerSends(frames)) ==>
              var r := Apply(s, m, ServerSends(frames));
              r.serverFrames == s.serverFrames + frames && r.toClient == s.toClient + frames
  {
  }

  /** A key that is not admitted, or a proof that does not hold, ends in refusal, however the line came. */
  lemma DisagreementRefuses(s: State, m: Script)
    ensures Enabled(s, ServerScan(false)) && NEWLINE in s.serverBuf ==> Apply(s, m, ServerScan(false)).server == Refused
    ensures Enabled(s, ServerEof(false)) ==> Apply(s, m, ServerEof(false)).server == Refused
  {
  }
}
