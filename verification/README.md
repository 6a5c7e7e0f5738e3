# Bonded, verified

Bonded is a multi-path VPN. A session numbers its frames and spreads them over several byte
streams; the receiver puts them back in order; the server translates the IPv4 packets inside them
to and from the real network. This project models the parts of that whose correctness is not
evident from reading one function, and proves what they promise.

| file | what it models |
|---|---|
| `Session.dfy` | the frame codec, the sequence numbers and the reorder buffer |
| `Framing.dfy` | the length-prefixed reader of TCP and QUIC streams, with its cancellation points |
| `PacketLoop.dfy` | the client's receive loop, which a session error ends |
| `MultiPath.dfy` | the three above composed over any number of paths |
| `InternetChecksum.dfy` | the checksum of RFC 1071 section 1: its definition, and the loop that computes it |
| `Packets.dfy` | address rewriting in place, the UDP and ICMP builders and parsers, the WireGuard carrier header |
| `NatTables.dfy` | the pending and active connection tables of the TCP forwarder |
| `Bridge.dfy` | the byte path from a real server back into the user-space TCP socket |
| `UdpFlows.dfy` | concurrent UDP packet tasks and reply pumps sharing a map of flows |
| `PeerRegistry.dfy`, `PeerLeases.dfy` | WireGuard addresses, leases, the peers file, restarts |
| `TunRoutes.dfy` | the TUN routing index and the session ids it is keyed by |
| `Admission.dfy` | invites, authorised keys, and the books of the admission handshake |
| `AuthStream.dfy` | the handshake's lines sharing one TCP connection with the frames after them |
| `PeerPaths.dfy` | discovery, dialling and the end of peer-relay paths |
| `PeerShare.dfy` | peer advertisements as TXT records |
| `Scheduling.dfy` | round-robin choice of a path |

`Octets.dfy`, `Sequences.dfy` and `Wrappers.dfy` hold what these share. `dafny verify dfyconfig.toml`
checks everything.

## How the model is built

- State that the code updates in place is a class. Its methods are proved against functions of the
  old state, or against a ghost history that `Valid()` ties to the fields.
- Tasks that run concurrently are a state machine with one step for each critical section or unlocked
  action. A run is any interleaving of enabled steps, and a promise is proved of every reachable state.
- Machine integers are bounded integer types. Wrap-around, saturation and truncation are written out.
- Sockets, clocks, signature checks, file faults, the choices of the user-space TCP stack and the
  chunks in which a network delivers bytes are inputs, and every statement holds for all of them.

## What turned out not to hold everywhere

Each of these is proved with the exact condition under which the code meets the promise.

- The client's packet loop ends on a session error, so a copy of a frame already delivered stops it and
  what arrives later is lost. What was delivered is always a prefix of what was sent; all of it is delivered
  exactly if every frame came before the first such copy: `PacketLoop.LoopDelivers`, with a
  failing input in `PacketLoop.CopyEndsLoop`.
- A packet sent to the client carries the destination that the *active* entries agree on. It is what all
  entries of both tables name as long as each new connection fits the entries present when it is created,
  which is also what keeps the tables unanimous: `NatTables.CreateKeepsUnanimityIff`,
  `NatTables.AlwaysUnanimousIff`. `NatTables.SentBesidePending` is a run without that guard.
- UDP reply numbers go up exactly while client numbers plus the replies since stay within 64 bits:
  `UdpFlows.RepliesOrderedIff`, with a run in `UdpFlows.TopNumberBreaksOrder`.
- Reloading the peers file gives back the live peers unless one has expiry zero, which the registry
  reads as "never" and the loader as "not set". Exactly a registration with a zero lease at clock zero
  produces one: `PeerLeases.ReloadAgreesIff`, `PeerLeases.NextStaysInStepIff`, with a run in
  `PeerLeases.ZeroLeaseRun`. A file edited by hand may hold two entries for a device; it agrees with the
  registry for ever exactly if none outlives the last: `PeerLeases.ReloadsAgreeForeverIff`.
- Devices plus remaining invite uses are conserved unless a use is spent and no device comes of it,
  because the key file could not be written or already held the key: `Admission.BalanceKeptIff`,
  `Admission.RunBalanceKeptIff`. The store equals the file unless the reload fails:
  `Admission.SyncKeptIff`.
- An advertisement survives its TXT records exactly when no capability is empty or holds a comma:
  `PeerShare.AdvertisementRoundTripIff`.
- Round-robin is fair up to the wrap of its counter, and past it exactly when the number of paths divides
  2^64: `Scheduling.FairPastTheWrapIff`.

Code and comment disagree in one place: the comment on the inbound rewrite
(`crates/bonded-server/src/smoltcp_forwarder.rs:1252`) says checksums are not recomputed, and the code
recomputes the header's. The model follows the code.

## Model

| member | source | states |
|---|---|---|
| Session.DecodeEncoded | crates/bonded-core/src/session.rs:117-146 | decoding an encoded frame gives the frame back, for every frame |
| Session.EncodeDecoded | crates/bonded-core/src/session.rs:117-146 | decoding succeeds exactly on 16 bytes or more, and encoding the result restores the input: with DecodeEncoded, a bijection |
| Session.EncodedLayout | crates/bonded-core/src/session.rs:117-124 | connection, sequence and flags stand at bytes 0, 4 and 12, most significant byte first, and the payload behind them |
| Session.SessionState.constructor | crates/bonded-core/src/session.rs:50-57 | a new session has created nothing and expects sequence 0 with an empty buffer |
| Session.SessionState.CreateOutboundFrame | crates/bonded-core/src/session.rs:71-82 | the frames created so far carry 0, 1, 2, ... modulo 2^64 on the session's connection; receiving is untouched |
| Session.SessionState.IngestInbound | crates/bonded-core/src/session.rs:84-113 | the drain loop ends, also across the sequence wrap, and state and result are those of the recursive specification, errors included |
| Session.DrainReachesLeastMissing | crates/bonded-core/src/session.rs:106-110 | draining stops at the least sequence not accepted and hands up exactly the frames before it, in order |
| Session.ReceiveIsReassembly | crates/bonded-core/src/session.rs:84-113 | after any arrivals: the expected sequence is the least not accepted, the buffer is the accepted frames beyond it, and what was handed up is every accepted frame before it, once and in order |
| Session.FirstCopyOf | crates/bonded-core/src/session.rs:102-104 | of several copies of a sequence number the first to arrive is the accepted one |
| Session.OrderDoesNotMatter | crates/bonded-core/src/session.rs:84-113 | two arrival orders of the same frames, with any repetitions, end in the same state and the same delivery |
| Session.UnchangedIff | crates/bonded-core/src/session.rs:88-104 | an arrival leaves state and delivery unchanged exactly when it is foreign or a copy of a frame already accepted |
| Session.DeliveryIsPrefix | crates/bonded-core/src/session.rs:71-113 | feeding one sender's frames to `ingest_inbound` under any loss, copying and reordering: it hands up the frames before the first one that has not arrived, and all of them once all have |
| Session.WrapStartsOver | crates/bonded-core/src/session.rs:106-110 | the arrival that completes all 2^64 numbers hands up the rest in order and leaves the session as a new one |
| Session.RunsFollowOn | crates/bonded-core/src/session.rs:84-113 | from such a point on a run adds exactly what it would hand up on a new session |
| PacketLoop.RunPacketLoop | crates/bonded-client/src/lib.rs:2115-2166 | the loop over arriving frames delivers and goes on as its specification says, and reads nothing after an error |
| PacketLoop.Turn | crates/bonded-client/src/lib.rs:2158-2166 | one frame's effect on session, device and loop |
| PacketLoop.RunningIff | crates/bonded-client/src/lib.rs:2158-2166 | the loop is running exactly if every arrival was on the connection and not behind what had been handed up; while it runs its session is that of `ingest_inbound` alone |
| PacketLoop.LoopIsReceive | crates/bonded-client/src/lib.rs:2158-2166 | in any case the loop has taken the arrivals before the first unwelcome one, and no other |
| PacketLoop.WelcomeIff | crates/bonded-core/src/session.rs:88-100 | an arrival of one sender's is refused exactly if it and all frames before it have come already |
| PacketLoop.LoopDelivers | crates/bonded-client/src/lib.rs:2158-2166 | one sender, any order, copies and losses: delivery is a prefix of the frames created; the loop runs exactly while no copy is late; everything is delivered exactly if all came before the first late copy |
| PacketLoop.CopyEndsLoop | crates/bonded-client/src/lib.rs:2158-2166 | a frame received twice in a row ends the loop, and the next frame is never delivered |
| Framing.FrontOfWire | crates/bonded-core/src/transport.rs:259-308 | a sent frame at the front of the buffer is read back and what follows it is left |
| Framing.ParseWires | crates/bonded-core/src/transport.rs:259-308 | the bytes of any list of sent frames parse to that list, followed by whatever the rest holds |
| Framing.ParseGrows | crates/bonded-core/src/transport.rs:268-308 | more bytes only ever add frames at the end |
| Framing.ParseCutStream | crates/bonded-core/src/transport.rs:268-308 | a sent stream cut anywhere parses to a prefix of the frames sent |
| Framing.FrameReader.constructor | crates/bonded-core/src/transport.rs:128-134 | a new reader has received and returned nothing |
| Framing.FrameReader.Recv | crates/bonded-core/src/transport.rs:268-308 | for any reads and any cancellation point: the result is what the bytes seen decide; it reads on exactly while they decide nothing, and gives up only on a read that ended the stream or failed; a frame goes off the front and nothing else, so a bad length prefix fails the next call alike |
| Framing.FrameReader.RecvBody | crates/bonded-core/src/transport.rs:293-307 | the same from the point where the length is known |
| Framing.OutcomeIsUnique | crates/bonded-core/src/transport.rs:268-308 | the reads determine how many a call uses and what it returns |
| Framing.DataDecides | crates/bonded-core/src/transport.rs:268-308 | a call whose reads all bring bytes returns the frame or the bad length if they decide one, and otherwise waits |
| Framing.FrameReader.Fill | crates/bonded-core/src/transport.rs:272-300 | reads exactly while the buffer is too short, keeps what is buffered, and reports a closed or failed stream only on a read that was one |
| Framing.FrameReader.SplitFrame | crates/bonded-core/src/transport.rs:303-307 | the frame taken off the front is the one its bytes encode, and only its bytes go |
| Framing.ReaderRefinesFrames | crates/bonded-core/src/transport.rs:268-308 | frames returned plus those still buffered are exactly the frames wholly contained in the bytes received; they are all returned exactly when no whole frame is buffered |
| MultiPath.EveryPathIsRead | crates/bonded-core/src/transport.rs:268-308 | in every run each path's bytes are the frames taken off it followed by its buffer |
| MultiPath.ArrivalsWereTaken | crates/bonded-client/src/lib.rs:2158-2166 | the frames that reach the session are those the loop took off some path |
| MultiPath.CaughtIsIngested | crates/bonded-core/src/transport.rs:268-308 | once every path has been read as far as it goes, each frame that arrived whole has reached the session |
| MultiPath.RecvTakesFront | crates/bonded-client/src/lib.rs:2158-2166 | a `recv` with a whole frame buffered hands exactly that frame to the session and leaves the rest |
| MultiPath.CatchesUp | crates/bonded-client/src/lib.rs:2158-2166 | from any state finitely many `recv` calls read every path as far as it goes, unless the loop ends first |
| MultiPath.FramesComeOutInOrder | crates/bonded-core/src/session.rs:71-113 | one sender's frames over any paths, in any copies, chunks, cuts and interleavings: delivery is always a prefix of the frames created; the loop goes on exactly while no late copy is read; and while it does, all are delivered once each has arrived on some path and been read |
| InternetChecksum.FoldedSum | crates/bonded-server/src/smoltcp_forwarder.rs:1327-1341 | word-by-word addition with end-around carry equals folding the plain sum once at the end |
| InternetChecksum.OnesComplementSum | crates/bonded-server/src/smoltcp_forwarder.rs:1327-1341 | the two loops compute the complement of the RFC 1071 sum, for odd and even lengths, with no overflow of the 32-bit accumulator |
| InternetChecksum.SumWords | crates/bonded-server/src/smoltcp_forwarder.rs:1328-1336 | the accumulator holds the exact word sum |
| InternetChecksum.AccumulatorBoundIsTight | crates/bonded-server/src/smoltcp_forwarder.rs:1328-1336 | up to 131074 bytes cannot overflow the accumulator, and two more can |
| InternetChecksum.StoredChecksumVerifies | crates/bonded-server/src/smoltcp_forwarder.rs:1303-1341 | storing the checksum of a region with a zeroed field makes the region verify, behind any even pseudo-header, with or without 0 sent as 0xffff |
| Packets.RewriteSrcIpOutbound | crates/bonded-server/src/smoltcp_forwarder.rs:1269-1301 | the buffer is rewritten in place to the specified packet; a short buffer is left alone |
| Packets.RewriteHeader | crates/bonded-server/src/smoltcp_forwarder.rs:1273-1278 | new address and a header checksum summed over the header with its field zeroed |
| Packets.RewriteSegment | crates/bonded-server/src/smoltcp_forwarder.rs:1287-1298 | the segment's checksum field is recomputed over pseudo-header and segment with the field zeroed |
| Packets.TcpUdpChecksumIpv4 | crates/bonded-server/src/smoltcp_forwarder.rs:1307-1325 | the explicit padding of odd segments does not change the sum; zero comes out as 0xffff |
| Packets.RewriteIsSound | crates/bonded-server/src/smoltcp_forwarder.rs:1269-1301 | for every packet with consistent lengths and a TCP segment of 20 bytes or a UDP one of 8: nothing changes but the source and bytes 10 to 11 of the header and 16 to 17 of the TCP or 6 to 7 of the UDP segment, and header and segment then verify under RFC 1071 |
| Packets.RewriteOfOthers | crates/bonded-server/src/smoltcp_forwarder.rs:1284-1300 | any other packet keeps its whole body and still gets its source and a verifying header |
| Packets.RewriteDstIpInbound | crates/bonded-server/src/smoltcp_forwarder.rs:1253-1266 | exactly IPv4 packets are rewritten; only destination and header checksum change, and the header verifies |
| Packets.BuildIpv4UdpPacket | crates/bonded-server/src/smoltcp_forwarder.rs:1875-1907 | filling the buffer field by field gives the specified packet or the "too large" error |
| Packets.ParseUdpIff | crates/bonded-server/src/smoltcp_forwarder.rs:1791-1831 | of all packets with an IPv4 header, with options or without, which are taken and what is read off them |
| Packets.ParseUdpRejects | crates/bonded-server/src/smoltcp_forwarder.rs:1791-1860 | too short, another version or a header length below 20 is taken by neither parser |
| Packets.ParseBuiltUdp | crates/bonded-server/src/smoltcp_forwarder.rs:1791-1907 | building succeeds exactly up to 65507 payload bytes, and parsing gives back every field |
| Packets.RebuiltUdpParsesTheSame | crates/bonded-server/src/smoltcp_forwarder.rs:1791-1907 | every accepted packet can be rebuilt from its fields and parses to the same fields |
| Packets.BuiltUdpVerifies | crates/bonded-server/src/smoltcp_forwarder.rs:1875-1907 | a built packet is unfragmented UDP with time-to-live 64, and its header and datagram verify under RFC 1071 |
| Packets.BuildIpv4IcmpPacket | crates/bonded-server/src/smoltcp_forwarder.rs:1909-1939 | the buffer filled and sealed in place is the specified packet or one of the two length errors |
| Packets.ParseEchoIff | crates/bonded-server/src/smoltcp_forwarder.rs:1833-1871 | of all packets with an IPv4 header exactly unfragmented echo requests are taken, with their whole segment |
| Packets.BuiltIcmpIsSound | crates/bonded-server/src/smoltcp_forwarder.rs:1833-1939 | building succeeds exactly from 8 to 65515 bytes, both checksums verify, and exactly echo requests parse, to the fields they were built from |
| Packets.WrapInIpv4 | crates/bonded-core/src/transport.rs:651-679 | the carrier header verifies, its length is the packet's modulo 2^16, and unwrapping gives the payload back, for every payload |
| Packets.UnwrapFromIpv4 | crates/bonded-core/src/transport.rs:682-697 | fails exactly on packets shorter than 20 bytes or than their header; otherwise header and result make up the packet |
| NatTables.AnswerIsUnique | crates/bonded-server/src/smoltcp_forwarder.rs:782-839 | the outcome of a scan does not depend on the order of the table |
| NatTables.CreateKeepsUnanimityIff | crates/bonded-server/src/smoltcp_forwarder.rs:727-746 | a new socket keeps all entries of each tuple naming one destination exactly if it does not listen or no entry of either table contradicts it |
| NatTables.EntriesShrink | crates/bonded-server/src/smoltcp_forwarder.rs:949-1135 | promotion and removal bring in no entry that was not there |
| NatTables.AlwaysUnanimousIff | crates/bonded-server/src/smoltcp_forwarder.rs:727-1135 | in any run of commands the tables are unanimous throughout exactly if every new socket met that guard |
| NatTables.UnanimousAnswer | crates/bonded-server/src/smoltcp_forwarder.rs:782-839 | over unanimous tables a packet gets the destination all entries of both tables name, and is never ambiguous |
| NatTables.SentBesidePending | crates/bonded-server/src/smoltcp_forwarder.rs:727-933 | for any tuple and two hosts, a run in which a packet goes out under the first host while the second is pending |
| NatTables.AdmitIsSound | crates/bonded-server/src/smoltcp_forwarder.rs:949-1037 | promotion keeps every active connection and their agreement; an established entry is refused exactly when the resulting table conflicts with it |
| NatTables.AgreementLeavesNoAmbiguity | crates/bonded-server/src/smoltcp_forwarder.rs:795-820 | the active-ambiguity branch is unreachable |
| NatTables.TupleOfFields | crates/bonded-server/src/smoltcp_forwarder.rs:766-791 | exactly IPv4 packets of 24 bytes or more are looked up, by destination address, destination port as the client's and source port as the server's |
| NatTables.PollThread.constructor | crates/bonded-server/src/smoltcp_forwarder.rs:670-680 | a new poll thread has no connections, no sockets and has sent nothing |
| NatTables.PollThread.CreateTcpSocket | crates/bonded-server/src/smoltcp_forwarder.rs:727-746 | a listening socket becomes pending under a handle of its own; a failed one leaves nothing |
| NatTables.PollThread.LookupActive | crates/bonded-server/src/smoltcp_forwarder.rs:782-800 | finds no entry, the one destination agreed, or a disagreement |
| NatTables.PollThread.LookupPending | crates/bonded-server/src/smoltcp_forwarder.rs:823-839 | the same for the pending list |
| NatTables.PollThread.SendToClient | crates/bonded-server/src/smoltcp_forwarder.rs:763-933 | a packet is sent exactly when one destination is agreed, rewritten to it, with the next number; dropped packets use no number; exactly a pending ambiguity is counted; after commands that met the guard the destination is the one all entries name |
| NatTables.PollThread.Resolve | crates/bonded-server/src/smoltcp_forwarder.rs:782-839 | the active table decides if it has an entry, the pending list otherwise, with one possible answer |
| NatTables.PollThread.PromoteEstablished | crates/bonded-server/src/smoltcp_forwarder.rs:938-1037 | removing by descending index takes out exactly the established entries, keeps the order of the others, counts each refusal, and keeps tables, sockets and statistics in step |
| NatTables.PollThread.ScanEstablished | crates/bonded-server/src/smoltcp_forwarder.rs:938-947 | the ascending indices of exactly the established entries: the promoted set never hides a pending one |
| NatTables.PollThread.Promote | crates/bonded-server/src/smoltcp_forwarder.rs:949-1037 | one entry moves to the active table, or is dropped with its socket and counted if it conflicts |
| NatTables.PollThread.RemoveClosed | crates/bonded-server/src/smoltcp_forwarder.rs:1117-1138 | exactly the closed connections go, from all tables at once, and the final cleanup changes nothing more |
| Bridge.BridgedConn.Enqueue | crates/bonded-server/src/smoltcp_forwarder.rs:1186-1213 | queued chunks join the end of the bytes to come |
| Bridge.BridgedConn.Service | crates/bonded-server/src/smoltcp_forwarder.rs:1063-1113 | what the socket took, the unsent tail and the queue always make up the bytes enqueued, for any partial writes, refusals and late chunks; the loop ends, with everything taken or in a turn in which the socket did not take what it was offered |
| Bridge.BridgedConn.ServeTurn | crates/bonded-server/src/smoltcp_forwarder.rs:1063-1113 | a turn moves exactly what the socket accepts of what is offered; one that goes on lessens the work left |
| Bridge.BridgedConn.SendRemaining | crates/bonded-server/src/smoltcp_forwarder.rs:1094-1112 | the offset moves by exactly what the socket took |
| UdpFlows.StepKeepsMap | crates/bonded-server/src/smoltcp_forwarder.rs:1561-1669 | every step keeps the map and the live flows in one-to-one correspondence |
| UdpFlows.StepKeepsOwners | crates/bonded-server/src/smoltcp_forwarder.rs:1561-1669 | every step keeps a flow without a pump with the task that will start it |
| UdpFlows.StepKeepsLog | crates/bonded-server/src/smoltcp_forwarder.rs:1544-1659 | every step keeps a flow's counter equal to the replay of its history |
| UdpFlows.StepKeepsForwarded | crates/bonded-server/src/smoltcp_forwarder.rs:1544-1555 | every step keeps the number of each forwarded packet in its flow's history |
| UdpFlows.StepKeepsOrigins | crates/bonded-server/src/smoltcp_forwarder.rs:1577-1590 | a flow's history starts with the number of the packet that created it |
| UdpFlows.AbsorbedReachesReply | crates/bonded-server/src/smoltcp_forwarder.rs:1544-1632 | the reply after a packet carries the packet's number, or the counter if that is ahead |
| UdpFlows.RepliesClearForwarded | crates/bonded-server/src/smoltcp_forwarder.rs:1544-1632 | in every run, while numbers stay in range, a reply is not below any packet forwarded before and above every earlier reply |
| UdpFlows.PacketFindsLiveFlow | crates/bonded-server/src/smoltcp_forwarder.rs:1568-1574 | in every run the first lookup binds a packet to the live flow of its 4-tuple, and misses exactly if there is none |
| UdpFlows.PublishKeepsLiveFlow | crates/bonded-server/src/smoltcp_forwarder.rs:1592-1600 | the second lookup keeps a live flow and discards the task's own, which goes in only if there is none |
| UdpFlows.EndedFlowMakesRoom | crates/bonded-server/src/smoltcp_forwarder.rs:1613-1666 | a pump that ends replies no more, and after its removal the 4-tuple is free |
| UdpFlows.EveryRunKeepsInv | crates/bonded-server/src/smoltcp_forwarder.rs:1533-1669 | the invariant holds after every interleaving |
| UdpFlows.OnePumpPerKey | crates/bonded-server/src/smoltcp_forwarder.rs:1568-1669 | in every reachable state a 4-tuple has at most one pump starting, running or finishing, and a map entry exactly while it has one |
| UdpFlows.RemoveTakesOwnEntry | crates/bonded-server/src/smoltcp_forwarder.rs:1664-1666 | a finishing pump removes its own entry, never a newer flow's |
| UdpFlows.RepliesOrderedIff | crates/bonded-server/src/smoltcp_forwarder.rs:1544-1666 | in every run, reply numbers of a flow go strictly up and never below a client number taken in, exactly if for each reply every earlier client number plus the replies between stays within 2^64 - 1 |
| UdpFlows.TopNumberBreaksOrder | crates/bonded-server/src/smoltcp_forwarder.rs:1613-1659 | a run in which the counter wraps |
| PeerRegistry.NormalizeOctet | crates/bonded-server/src/wireguard.rs:287-292 | host octets stay, 0 and 255 become 1 |
| PeerRegistry.Expiry | crates/bonded-server/src/wireguard.rs:298-303 | the clock plus the lease, or the largest number where that does not fit |
| PeerRegistry.ScanGoesRound | crates/bonded-server/src/wireguard.rs:271-285 | the scan starts at the cursor and goes up by one, from 254 to 1 |
| PeerRegistry.ScanVisitsEachOnce | crates/bonded-server/src/wireguard.rs:271-285 | the modular scan meets every host octet exactly once, from any start |
| PeerRegistry.AllocatePeerIp | crates/bonded-server/src/wireguard.rs:271-285 | gives the first free octet cyclically from the cursor, and fails exactly when all 254 are held |
| PeerRegistry.WireGuardPeerRegistry.Load | crates/bonded-server/src/wireguard.rs:103-117 | the restart step on whatever the file holds: live entries loaded, cursor past the highest, file rewritten exactly if it was normalised |
| PeerRegistry.WireGuardPeerRegistry.PruneExpired | crates/bonded-server/src/wireguard.rs:218-226 | exactly lapsed leases go, and the file is rewritten when any does |
| PeerRegistry.WireGuardPeerRegistry.RegisterPeerLease | crates/bonded-server/src/wireguard.rs:128-192 | a live device keeps its address under the new key and lease; a new one gets the first free address; it fails exactly when none is free |
| PeerRegistry.WireGuardPeerRegistry.FindByWgKey | crates/bonded-server/src/wireguard.rs:196-201 | an answer has the key and a live lease; no answer means no live peer has the key |
| PeerRegistry.LoadPeersFile | crates/bonded-server/src/wireguard.rs:229-257 | the loop loads what the recursive specification loads |
| PeerRegistry.HighestOctet | crates/bonded-server/src/wireguard.rs:229-257 | the cursor after a start is set by the highest octet among the live entries of the file |
| PeerRegistry.PersistPeersFile | crates/bonded-server/src/wireguard.rs:259-269 | the file lists every peer once and nothing else, sorted by device key |
| PeerLeases.ReloadAgreesIff | crates/bonded-server/src/wireguard.rs:211-269 | reloading a written file gives exactly the live peers, if and only if none has expiry zero |
| PeerLeases.ZeroExpiryIff | crates/bonded-server/src/wireguard.rs:298-303 | a granted expiry is zero exactly for a zero lease at clock zero |
| PeerLeases.ZeroGrantBreaksReload | crates/bonded-server/src/wireguard.rs:128-257 | once it has been granted, no reload at that instant finds the peers the registry has |
| PeerLeases.ZeroLeaseRun | crates/bonded-server/src/wireguard.rs:103-192 | a new registry with a zero lease at clock zero comes to such a state |
| PeerLeases.ReloadsAgreeForeverIff | crates/bonded-server/src/wireguard.rs:229-257 | loading a file later gives what it gave before less what lapsed, for ever, exactly if no entry outlives the last one for its device |
| PeerLeases.LoadLater | crates/bonded-server/src/wireguard.rs:229-257 | loading later gives what loading earlier gave, less what lapsed in between |
| PeerLeases.RestartIsPrune | crates/bonded-server/src/wireguard.rs:103-117 | a restart changes the peers as a prune at that instant would |
| PeerLeases.StartIsInStepIff | crates/bonded-server/src/wireguard.rs:103-117 | a start on a file of any contents is in agreement with it from then on exactly if it rewrote the file or no entry outlives the last for its device |
| PeerLeases.NextStaysInStepIff | crates/bonded-server/src/wireguard.rs:138-226 | after an operation, reloading the file gives the live peers, at that instant and later, exactly unless the operation granted the zero expiry |
| PeerLeases.NextStaysSound | crates/bonded-server/src/wireguard.rs:128-192 | every operation keeps addresses distinct, in 1..254, and the cursor in range |
| PeerLeases.NextKeepsAddress | crates/bonded-server/src/wireguard.rs:138-163 | an operation on an unlapsed lease leaves the device its address, and only its own registration moves its lease |
| PeerLeases.EveryRunStaysSound | crates/bonded-server/src/wireguard.rs:103-226 | any run of registrations, prunes and restarts under a clock that does not go back keeps addresses sound and the file in agreement |
| PeerLeases.AddressIsKept | crates/bonded-server/src/wireguard.rs:103-192 | a device that returns before each lease lapses keeps its address across key changes, other devices and any number of restarts |
| PeerLeases.FreshRegistry | crates/bonded-server/src/wireguard.rs:86-117 | an empty registry is a state these runs can start from |
| TunRoutes.RoutesAfter | crates/bonded-server/src/tun_bridge.rs:57-63 | how one packet, joining or leaving changes who has the route of an address |
| TunRoutes.ParseSrcDstIff | crates/bonded-server/src/tun_bridge.rs:157-181 | of all packets with an IPv4 header and a consistent length, the source and the destination, in that order |
| TunRoutes.ParseSrcDstRejects | crates/bonded-server/src/tun_bridge.rs:157-181 | too short, another version or a bad header length is dropped |
| TunRoutes.RouteIsUnique | crates/bonded-server/src/tun_bridge.rs:57-63 | at most one session has the route of an address |
| TunRoutes.RoutedIsRegistered | crates/bonded-server/src/tun_bridge.rs:93-101 | a session with a route is registered, so the stale-mapping branch is unreachable |
| TunRoutes.FirstJoinHasNoRoute | crates/bonded-server/src/tun_bridge.rs:126-136 | a session id that joins for the first time has no route |
| TunRoutes.TunServer.constructor | crates/bonded-server/src/tun_bridge.rs:35-44 | registry and bridge start empty and in agreement |
| TunRoutes.TunServer.Assign | crates/bonded-server/src/main.rs:599 | that only issued ids join is kept, so a client not yet known gets an id nothing is routed to |
| TunRoutes.TunServer.Attach | crates/bonded-server/src/main.rs:628-630 | attaching an assigned session for the first time brings no route with it |
| TunRoutes.TunServer.Detach | crates/bonded-server/src/main.rs:860-862 | afterwards nothing is routed to the session |
| TunRoutes.TunServer.Release | crates/bonded-server/src/main.rs:870 | the client is forgotten, its id stays issued |
| TunRoutes.TunServer.ClientPacket | crates/bonded-server/src/tun_bridge.rs:46-74 | a packet of a registered session gives it the route of its source |
| TunRoutes.TunServer.DevicePacket | crates/bonded-server/src/tun_bridge.rs:76-121 | a return frame is made exactly for a routed destination |
| TunRoutes.TunBridgeState.constructor | crates/bonded-server/src/tun_bridge.rs:35-44 | the empty index agrees with the empty history |
| TunRoutes.TunBridgeState.RegisterSession | crates/bonded-server/src/tun_bridge.rs:126-136 | the index agrees with the history extended by the joining; numbering restarts at 0 |
| TunRoutes.TunBridgeState.UnregisterSession | crates/bonded-server/src/tun_bridge.rs:138-144 | the same for leaving: all the session's routes go and no other |
| TunRoutes.TunBridgeState.WriterStep | crates/bonded-server/src/tun_bridge.rs:46-74 | a parsable packet claims its source's route for a registered session; the index agrees with the history again |
| TunRoutes.TunBridgeState.ReaderStep | crates/bonded-server/src/tun_bridge.rs:76-121 | a frame is made exactly for a routed destination, for that session, on its latest connection, with the next number; a closed channel unregisters the session |
| TunRoutes.TunBridgeState.Advance | crates/bonded-server/src/tun_bridge.rs:103-111 | return frames of a registration carry 0, 1, 2, ... without gaps |
| TunRoutes.SessionRegistry.constructor | crates/bonded-server/src/session_registry.rs:15-24 | no ids issued |
| TunRoutes.SessionRegistry.RegisterClient | crates/bonded-server/src/session_registry.rs:27-42 | a known client keeps its id, a new one gets an id never issued before (until 2^64 have been), and clients never share one |
| TunRoutes.SessionRegistry.UnregisterClient | crates/bonded-server/src/session_registry.rs:44-50 | only that client is forgotten |
| Admission.InviteTokenManager.constructor | crates/bonded-core/src/auth.rs:37-43 | for every value in the list the last entry with it is kept, and no other entry |
| Admission.InviteTokenManager.Redeem | crates/bonded-core/src/auth.rs:55-67 | succeeds exactly on a token with uses left and takes one; either error changes nothing |
| Admission.InviteTokenManager.AllTokens | crates/bonded-core/src/auth.rs:73-75 | reading the written list back gives the same tokens |
| Admission.DeviceMapKeys | crates/bonded-server/src/authorized_keys.rs:102-110 | the store has exactly the keys on file |
| Admission.AdmissionServer.constructor | crates/bonded-server/src/authorized_keys.rs:43-50 | the store starts out as the file |
| Admission.AdmissionServer.RedeemInviteToken | crates/bonded-server/src/invite_tokens.rs:35-67 | the file loses one use exactly when the token is redeemable and the file can be used |
| Admission.AdmissionServer.AuthorizeDeviceKey | crates/bonded-server/src/authorized_keys.rs:81-100 | the key is on file afterwards, and is added only if it was not |
| Admission.AdmissionServer.Reload | crates/bonded-server/src/authorized_keys.rs:52-60 | afterwards exactly the keys on file are authorised, each as the last device on file with it; a fault leaves the store alone |
| Admission.AdmissionServer.PerformAuthHandshake | crates/bonded-server/src/auth_handshake.rs:34-102 | the ordered file and store updates and the outcome are those of the specification, for every combination of faults |
| Admission.BalanceKeptIff | crates/bonded-server/src/auth_handshake.rs:46-101 | one handshake never raises devices plus remaining uses, and keeps the sum exactly unless it wastes a use |
| Admission.RunBalanceKeptIff | crates/bonded-server/src/auth_handshake.rs:46-101 | the same over any sequential run with any faults |
| Admission.SyncKeptIff | crates/bonded-server/src/authorized_keys.rs:52-100 | store and key file stay equal exactly unless the reload after a new key fails |
| Admission.SuccessNeedsStore | crates/bonded-server/src/auth_handshake.rs:46-101 | success needs a valid proof and a key in the store, known before or admitted by an invite |
| Admission.SuccessIff | crates/bonded-server/src/auth_handshake.rs:46-101 | a handshake succeeds exactly if the proof holds and the key was in the store or an invite with uses left admitted it without a fault |
| Admission.AdmissionConserves | crates/bonded-server/src/auth_handshake.rs:46-101 | with a usable key file, any run of handshakes with any keys, invites and proofs keeps the sum and the store equal to the file |
| Admission.InvitesBoundDevices | crates/bonded-server/src/auth_handshake.rs:46-101 | whatever fails, no run admits more devices than uses were given up |
| AuthStream.ReadLineFromStream | crates/bonded-client/src/lib.rs:1997-2016 | consumes exactly one line however much has arrived; fails exactly at 16384 bytes without one or at the end of the stream |
| AuthStream.BufferedReader.ReadLine | crates/bonded-server/src/auth_handshake.rs:240-253 | returns exactly the first line; what it holds back is the rest of the last chunk read, and it reads only when it must |
| AuthStream.FirstLineIsUnique | crates/bonded-server/src/auth_handshake.rs:240-253 | a byte stream splits into first line and rest in one way |
| AuthStream.StepKeepsInv | crates/bonded-server/src/auth_handshake.rs:39-101 | every step of either side keeps the two in lock step |
| AuthStream.EveryRunKeepsInv | crates/bonded-client/src/lib.rs:1956-2016 | so does every run, with any chunking, either side failing at any point, also in the middle of writing a message, and the server reading a line cut off by the end of the stream |
| AuthStream.HandoverAtFrameBoundary | crates/bonded-server/src/auth_handshake.rs:39-101 | in every run the server's buffered reader is dropped empty, and each frame reader sees exactly the frame bytes the other side wrote, from the first on |
| AuthStream.HandshakeCompletes | crates/bonded-server/src/auth_handshake.rs:39-101 | for any messages within the client's limit there is a run that takes both sides to framing |
| AuthStream.DisagreementRefuses | crates/bonded-server/src/auth_handshake.rs:46-86 | a key not admitted or a proof that does not hold ends in refusal |
| AuthStream.CutMessageIsJudged | crates/bonded-server/src/auth_handshake.rs:240-253 | at the end of the stream only a message that lacks nothing but its newline is judged as one |
| AuthStream.LongLineFails | crates/bonded-client/src/lib.rs:2011-2014 | the client fails exactly when a line reaches 16384 bytes without a newline |
| AuthStream.FramesGoOut | crates/bonded-core/src/transport.rs:259-266 | frames go out behind those written before |
| PeerPaths.StepKeepsChannel | crates/bonded-client/src/lib.rs:133-140 | the channel holds one notice for each transport that ended and was not yet written off |
| PeerPaths.StepKeepsPaths | crates/bonded-client/src/peer_runtime.rs:169-271 | every step keeps one open transport a peer, each known to the browse task |
| PeerPaths.EveryRunKeepsInv | crates/bonded-client/src/peer_runtime.rs:169-271 | so does every interleaving |
| PeerPaths.OnePathPerPeer | crates/bonded-client/src/peer_runtime.rs:169-271 | in every reachable state a peer has at most one transport not written off, and no transport has notified twice |
| PeerPaths.NoRedialBeforeNotice | crates/bonded-client/src/peer_runtime.rs:169-271 | a peer is dialled only when the notices of all its earlier transports have been taken |
| PeerPaths.DialledIff | crates/bonded-client/src/peer_runtime.rs:200-211 | a discovery is dialled exactly if acceptable and not connected, and a failed dial leaves everything as it was |
| PeerPaths.EndNotifies | crates/bonded-client/src/lib.rs:133-140 | a transport that ends puts its peer on the channel the first time, and changes nothing after |
| PeerPaths.TakenPeerIsDialledAgain | crates/bonded-client/src/peer_runtime.rs:174-211 | in every run, once a notice is taken its peer has no open transport and its discovery leads to a dial |
| PeerPaths.StoppedForGood | crates/bonded-client/src/peer_runtime.rs:185-270 | without a receiver for transports, or a browser, nothing is dialled any more |
| PeerPaths.PathLivesAndReturns | crates/bonded-client/src/peer_runtime.rs:169-271 | for any peer the run found, dialled, handed over, ended, reported, found and dialled again |
| PeerShare.ParsePrinted | crates/bonded-core/src/peer_share.rs:82-103 | every 16-bit version survives printing and parsing |
| PeerShare.SplitJoined | crates/bonded-core/src/peer_share.rs:96-110 | splitting a joined non-empty list of comma-free items gives the list back |
| PeerShare.ListRoundTripIff | crates/bonded-core/src/peer_share.rs:96-113 | a list survives joining, splitting and filtering exactly when every item is non-empty and comma-free, the empty list included |
| PeerShare.FirstMissing | crates/bonded-core/src/peer_share.rs:138-143 | no key is reported exactly when all are present |
| PeerShare.ParsesIff | crates/bonded-core/src/peer_share.rs:101-115 | records parse exactly if every key is there and the version is a number; what is amiss first is named |
| PeerShare.ParsePlus | crates/bonded-core/src/peer_share.rs:103 | a version may carry a plus sign |
| PeerShare.AdvertisementRoundTripIff | crates/bonded-core/src/peer_share.rs:80-115 | printed records always parse, and to the same advertisement exactly when the capability list survives |
| Scheduling.RoundRobinScheduler.constructor | crates/bonded-core/src/scheduler.rs:8-11 | no choices made |
| Scheduling.RoundRobinScheduler.ChoosePath | crates/bonded-core/src/scheduler.rs:14-21 | positions are taken in turn over the whole history of calls; an empty list takes no turn |
| Scheduling.EveryWindowIsFair | crates/bonded-core/src/scheduler.rs:14-21 | in any stretch of choices among the same paths below the wrap, or any at all if their number divides 2^64, two positions are taken equally often, give or take one, and a full cycle takes each once |
| Scheduling.FairPastTheWrapIff | crates/bonded-core/src/scheduler.rs:14-21 | a history that runs past the wrap is fair throughout exactly if the number of paths divides 2^64 |

## Left out

- Session.ReceiveIsReassembly: assumes that some sequence number has not been accepted yet; so do DrainReachesLeastMissing, OrderDoesNotMatter, UnchangedIff and DeliveryIsPrefix, which build on it. WrapStartsOver and RunsFollowOn say what happens when all 2^64 have been.
- MultiPath.FramesComeOutInOrder: assumes fewer than 2^64 frames, each short enough for the 32-bit length prefix; `send` returns an error on a longer one. Reading from any path in any order covers the one active path of the Linux client and its failover.
- PacketLoop.RunPacketLoop: the sending half of the loop, and its end on a failing device or the last failing transport, are not modelled; nor is the Android client, which delivers frames without the session's reordering.
- Framing.FrameReader.Recv: a cancelled call is a call that stops before its next read completes; the executor is not modelled.
- Packets.RewriteSrcIpOutbound: a header length beyond the end of the buffer, where the source's slice panics, is excluded; so it is for RewriteDstIpInbound and SendToClient.
- Packets.RewriteIsSound: says nothing of packets whose header length is below 20, on which the source still sums that many bytes.
- NatTables.PollThread.CreateTcpSocket: that the socket set never hands out a live handle is assumed of it.
- Bridge.BridgedConn.Service: that the socket keeps what it takes in order is its part of the model; the order of turns between connections, and the byte path towards the real server, are not modelled.
- UdpFlows.EveryRunKeepsInv: the flow tracker of the status page, which is updated under another lock, the connection id and identification a reply copies from the latest request, and the sending of datagrams are not modelled.
- PeerRegistry.WireGuardPeerRegistry.RegisterPeerLease: where the source panics because no address is free, the model returns no peer; a failing file write, also a panic, does not occur.
- PeerRegistry.PersistPeersFile: picks the least key in each turn where the source calls a library sort.
- PeerLeases.EveryRunStaysSound: starts from a registry in agreement with its file, which StartIsInStepIff characterises for files of any contents, and excludes operations that grant the zero expiry, which break the agreement. So do AddressIsKept, RestartIsPrune and LoadLater.
- Admission.AdmissionServer.RedeemInviteToken: a file that fails does so before anything is written; partial writes are not modelled, and neither are the expiry of invites, which redeeming does not consult, nor two handshakes changing the files at once.
- AuthStream.HandoverAtFrameBoundary: messages are newline-terminated byte strings of the two programs themselves; that a strict beginning of a message's JSON text does not parse is assumed, and UTF-8 validity is not modelled.
- PeerPaths.NoRedialBeforeNotice: a transport whose owner drops it without an error or a close never notifies, and its peer is then never dialled again.
- Scheduling.EveryWindowIsFair: past the wrap of the counter it needs a number of paths that divides 2^64, which FairPastTheWrapIff shows to be necessary.
- TunRoutes.TunBridgeState.ReaderStep: the unreachable stale-mapping branch is an asserted contradiction.
- Connection identifiers and TCP reset counters of the poll thread, PCAP and other logging.
- The two-party QUIC and WebSocket handshakes; the WebSocket one has the steps of the TCP one over whole messages.
- `PrependedStream`, the ICMP forwarding task, active-standby scheduling, CIDR masks: easy members.
- Which client the user-space TCP stack accepts on a listening socket, and which WireGuard datagrams decrypt: decided inside libraries.
- smoltcp, boringtun, quinn, tungstenite, tokio, ed25519, SHA-256, base64, JSON and TOML themselves.
- ACME, TLS, mDNS transport, HTTP routing, the status page, iptables, configuration, Android.
