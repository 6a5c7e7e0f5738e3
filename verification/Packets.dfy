/**
 The raw IPv4 packets the server forwards: the in-place source rewrite of packets
 coming back from the user-space TCP stack, the UDP and ICMP builders and parsers,
 and the minimal header that carries session frames inside WireGuard.
 */
module Packets {
  import opened Octets
  import opened InternetChecksum
  import opened Wrappers

  type Ipv4 = a: seq<byte> | |a| == 4 witness [0, 0, 0, 0]

  const TCP: byte := 6
  const UDP: byte := 17
  const ICMP: byte := 1

  function U16At(p: seq<byte>, k: nat): (r: u16)
    requires k + 1 < |p|
  {
    0x100 * (p[k] as int) + p[k + 1]
  }

  /** Header length in bytes, from the low nibble of the first byte. */
  function HeaderLen(p: seq<byte>): (r: nat)
    requires |p| > 0
  {
    p[0] % 0x10 * 4
  }

  function Version(p: seq<byte>): (r: nat)
    requires |p| > 0
  {
    p[0] / 0x10
  }

  /** The pseudo-header summed in front of a TCP or UDP segment (section 3.1 of RFC 9293, RFC 768). */
  function PseudoHeader(src: Ipv4, dst: Ipv4, proto: byte, len: u16): (r: seq<byte>) {
    src + dst + [0, proto, len / 0x100, len % 0x100]
  }

  /** `tcp_udp_checksum_ipv4`: zero is sent as all ones. */
  function TransportChecksum(src: Ipv4, dst: Ipv4, proto: byte, segment: seq<byte>): (r: u16)
    requires |segment| < 0x1_0000
    ensures r != 0
  {
    NonZero(Checksum(PseudoHeader(src, dst, proto, |segment|) + segment))
  }

  /** Overwrites `p` from offset `k` with `field`. */
  function Splice(p: seq<byte>, k: nat, field: seq<byte>): (r: seq<byte>)
    requires k + |field| <= |p|
    ensures |r| == |p|
  {
    p[..k] + field + p[k + |field|..]
  }

  // ---- Rewriting the source address of an outbound packet -------------------

  /** Offsets of the two addresses in a header. */
  const SRC_AT: nat := 12
  const DST_AT: nat := 16

  /** The packet with address `ip` at `at` and a fresh header checksum. */
  function WithAddress(p: seq<byte>, at: nat, ip: Ipv4): (r: seq<byte>)
    requires |p| >= 20 && HeaderLen(p) <= |p| && (at == SRC_AT || at == DST_AT)
    ensures |r| == |p|
  {
    var zeroed := Put16(Splice(p, at, ip), 10, 0);
    Put16(zeroed, 10, Checksum(zeroed[..HeaderLen(p)]))
  }

  /** Where the transport checksum sits in a segment of the given protocol, if it is long enough to have one. */
  function ChecksumOffset(proto: byte, segmentLen: nat): (r: Option<nat>)
    ensures r.Some? ==> r.value % 2 == 0 && r.value + 1 < segmentLen
  {
    if proto == TCP && segmentLen >= 20 then Some(16)
    else if proto == UDP && segmentLen >= 8 then Some(6)
    else None
  }

  /** A segment with its checksum field recomputed. */
  function WithChecksum(src: Ipv4, dst: Ipv4, proto: byte, segment: seq<byte>, k: nat): (r: seq<byte>)
    requires |segment| < 0x1_0000 && k + 1 < |segment|
    ensures |r| == |segment|
  {
    Put16(segment, k, TransportChecksum(src, dst, proto, Put16(segment, k, 0)))
  }

  /** The packet with a fresh transport checksum, if it has one. */
  function WithTransport(q: seq<byte>): (r: seq<byte>)
    requires |q| >= 20 && HeaderLen(q) <= |q|
    ensures |r| == |q|
  {
    var start, end := HeaderLen(q), U16At(q, 2);
    if end > |q| || end < start then q
    else
      match ChecksumOffset(q[9], end - start)
      case None => q
      case Some(k) => Splice(q, start, WithChecksum(q[12..16], q[16..20], q[9], q[start..end], k))
  }

  lemma HeaderLenKept(p: seq<byte>, at: nat, ip: Ipv4)
    requires |p| >= 20 && HeaderLen(p) <= |p| && (at == SRC_AT || at == DST_AT)
    ensures HeaderLen(WithAddress(p, at, ip)) == HeaderLen(p)
  {
  }

  /** What `rewrite_src_ip_outbound` leaves in the buffer. */
  function Rewritten(p: seq<byte>, src: Ipv4): (r: seq<byte>)
    requires |p| >= 20 ==> HeaderLen(p) <= |p|
    ensures |r| == |p|
  {
    if |p| < 20 then p
    else
      HeaderLenKept(p, SRC_AT, src);
      WithTransport(WithAddress(p, SRC_AT, src))
  }

  method RewriteSrcIpOutbound(pkt: array<byte>, src: Ipv4)
    requires pkt.Length >= 20 ==> HeaderLen(pkt[..]) <= pkt.Length
    modifies pkt
    ensures pkt[..] == Rewritten(old(pkt[..]), src)
  {
    if pkt.Length < 20 {
      return;
    }
    ghost var p := pkt[..];
    RewriteHeader(pkt, SRC_AT, src);
    HeaderLenKept(p, SRC_AT, src);
    ghost var q := pkt[..];
    var start := pkt[0] % 0x10 * 4;
    var end: nat := 0x100 * (pkt[2] as int) + pkt[3];
    assert start == HeaderLen(q) && end == U16At(q, 2);
    if end > pkt.Length || end < start {
      return;
    }
    match ChecksumOffset(pkt[9], end - start)
    case None =>
    case Some(k) => RewriteSegment(pkt, start, end, k);
  }

  /** The header half of a rewrite: new address, zero the field, sum, store. */
  method RewriteHeader(pkt: array<byte>, at: nat, ip: Ipv4)
    requires pkt.Length >= 20 && HeaderLen(pkt[..]) <= pkt.Length && (at == SRC_AT || at == DST_AT)
    modifies pkt
    ensures pkt[..] == WithAddress(old(pkt[..]), at, ip)
  {
    ghost var a := Splice(pkt[..], at, ip);
    var start := pkt[0] % 0x10 * 4;
    CopyInto(pkt, at, ip);
    CopyInto(pkt, 10, [0, 0]);
    SpliceIsPut(a, 10, 0);
    assert pkt[..start] == pkt[..][..start];
    var sum := HeaderSum(pkt[..start]);
    CopyInto(pkt, 10, [sum / 0x100, sum % 0x100]);
    SpliceIsPut(Put16(a, 10, 0), 10, sum);
  }

  lemma SpliceIsPut(a: seq<byte>, k: nat, v: u16)
    requires k + 1 < |a|
    ensures Splice(a, k, [v / 0x100, v % 0x100]) == Put16(a, k, v)
  {
  }

  /** The transport half of the rewrite: zero the field, sum, store. */
  method RewriteSegment(pkt: array<byte>, start: nat, end: nat, k: nat)
    requires pkt.Length >= 20 && start + k + 1 < end <= pkt.Length && end < 0x1_0000
    modifies pkt
    ensures var q := old(pkt[..]);
            pkt[..] == Splice(q, start, WithChecksum(q[12..16], q[16..20], q[9], q[start..end], k))
  {
    ghost var q := pkt[..];
    var proto, src, dst := pkt[9], pkt[12..16], pkt[16..20];
    CopyInto(pkt, start + k, [0, 0]);
    SpliceField(q, start, end, k, 0);
    assert pkt[start..end] == pkt[..][start..end];
    var sum := TcpUdpChecksumIpv4(src, dst, proto, pkt[start..end]);
    CopyInto(pkt, start + k, [sum / 0x100, sum % 0x100]);
    SpliceField(q, start, end, k, sum);
    SpliceTwice(q, start + k, [0, 0], [sum / 0x100, sum % 0x100]);
  }

  lemma SpliceAt(p: seq<byte>, k: nat, field: seq<byte>, i: nat)
    requires k + |field| <= |p| && i < |p|
    ensures Splice(p, k, field)[i] == if k <= i < k + |field| then field[i - k] else p[i]
  {
  }

  /** Writing a field in the packet is writing it in the segment. */
  lemma SpliceField(q: seq<byte>, start: nat, end: nat, k: nat, v: u16)
    requires start + k + 1 < end <= |q|
    ensures var r := Splice(q, start + k, [v / 0x100, v % 0x100]);
            r == Splice(q, start, Put16(q[start..end], k, v)) && r[start..end] == Put16(q[start..end], k, v)
  {
    var r, segment := Splice(q, start + k, [v / 0x100, v % 0x100]), Put16(q[start..end], k, v);
    forall i | 0 <= i < |q| ensures r[i] == Splice(q, start, segment)[i] {
      SpliceAt(q, start + k, [v / 0x100, v % 0x100], i);
      SpliceAt(q, start, segment, i);
    }
  }

  lemma SpliceTwice(q: seq<byte>, k: nat, a: seq<byte>, b: seq<byte>)
    requires |a| == |b| && k + |a| <= |q|
    ensures Splice(Splice(q, k, a), k, b) == Splice(q, k, b)
  {
  }

  /** `copy_from_slice` into `pkt[k..k + |field|]`. */
  method CopyInto(pkt: array<byte>, k: nat, field: seq<byte>)
    requires k + |field| <= pkt.Length
    modifies pkt
    ensures pkt[..] == Splice(old(pkt[..]), k, field)
  {
    for i := 0 to |field|
      invariant forall j | 0 <= j < i :: pkt[k + j] == field[j]
      invariant forall j | 0 <= j < pkt.Length && !(k <= j < k + i) :: pkt[j] == old(pkt[j])
    {
      pkt[k + i] := field[i];
    }
  }

  method HeaderSum(header: seq<byte>) returns (r: u16)
    requires |header| <= 60
    ensures r == Checksum(header)
  {
    r := OnesComplementSum(header);
  }

  method TcpUdpChecksumIpv4(src: Ipv4, dst: Ipv4, proto: byte, segment: seq<byte>) returns (r: u16)
    requires |segment| < 0x1_0000
    ensures r == TransportChecksum(src, dst, proto, segment)
  {
    var len: u16 := |segment|;
    var pseudo := src + dst + [0] + [proto] + [len / 0x100, len % 0x100] + segment;
    assert pseudo == PseudoHeader(src, dst, proto, len) + segment;
    if len % 2 == 1 {
      PaddedChecksum(pseudo);
      pseudo := pseudo + [0];
    }
    r := OnesComplementSum(pseudo);
    if r == 0 {
      r := 0xffff;
    }
  }

  lemma PaddedChecksum(bytes: seq<byte>)
    requires |bytes| % 2 == 1
    ensures Checksum(bytes + [0]) == Checksum(bytes)
  {
    WordSumPad(bytes, 0);
    FoldedSum(bytes);
    FoldedSum(bytes + [0]);
  }

  /** A packet whose lengths are consistent and which holds a whole TCP or UDP header. */
  ghost predicate WellFormed(p: seq<byte>) {
    && |p| >= 20
    && 20 <= HeaderLen(p) <= U16At(p, 2) <= |p|
    && ChecksumOffset(p[9], U16At(p, 2) - HeaderLen(p)).Some?
  }

  ghost function FieldAt(p: seq<byte>): (r: nat)
    requires WellFormed(p)
  {
    HeaderLen(p) + ChecksumOffset(p[9], U16At(p, 2) - HeaderLen(p)).value
  }

  /** The whole of a rewritten packet's transport part, as a receiver sums it. */
  ghost predicate SegmentVerifies(p: seq<byte>)
    requires |p| >= 20 && HeaderLen(p) <= U16At(p, 2) <= |p|
  {
    var segment := p[HeaderLen(p)..U16At(p, 2)];
    Verifies(PseudoHeader(p[12..16], p[16..20], p[9], |segment|) + segment)
  }

  /** The transport checksum is at byte 16 of a TCP segment of 20 bytes or more, at byte 6 of a UDP one of 8 or more. */
  predicate HoldsChecksum(proto: byte, segmentLen: int, offset: nat) {
    (proto == 6 && segmentLen >= 20 && offset == 16) || (proto == 17 && segmentLen >= 8 && offset == 6)
  }

  /**
   The rewrite puts `src` in place, touches nothing but the source address and the two checksum fields, and leaves
   both checksums correct as RFC 1071 and the pseudo-header of RFC 9293 and RFC 768 have it, for odd and even segments.
   */
  lemma RewriteIsSound(p: seq<byte>, src: Ipv4, h: nat, total: u16, offset: nat)
    requires |p| >= 20 && h == p[0] % 16 * 4 && total == 256 * (p[2] as int) + p[3]
    requires 20 <= h <= total <= |p| && HoldsChecksum(p[9], total - h, offset)
    ensures var r, field := Rewritten(p, src), h + offset;
            && r[12..16] == src
            && (forall i | 0 <= i < |p| && !(10 <= i < 16) && !(field <= i < field + 2) :: r[i] == p[i])
            && Verifies(r[..h])
            && Verifies(PseudoHeader(src, p[16..20], p[9], total - h) + r[h..total])
            && (r[field] != 0 || r[field + 1] != 0)
  {
    FieldIsThere(p, h, total, offset);
    RewriteKeepsTheRest(p, src);
    RewriteSums(p, src);
    SumsInPlace(p, Rewritten(p, src), h, total, offset);
  }

  lemma SumsInPlace(p: seq<byte>, r: seq<byte>, h: nat, total: u16, offset: nat)
    requires WellFormed(p) && HeaderLen(p) == h && U16At(p, 2) == total && FieldAt(p) == h + offset
    requires |r| == |p| && WellFormed(r) && FieldAt(r) == FieldAt(p) && SegmentVerifies(r) && U16At(r, FieldAt(r)) != 0
    requires forall i | 0 <= i < |p| && !(10 <= i < 16) && !(FieldAt(p) <= i < FieldAt(p) + 2) :: r[i] == p[i]
    ensures Verifies(PseudoHeader(r[12..16], p[16..20], p[9], total - h) + r[h..total])
    ensures r[h + offset] != 0 || r[h + offset + 1] != 0
  {
    assert r[0] == p[0] && r[2] == p[2] && r[3] == p[3] && r[9] == p[9];
    assert r[16..20] == p[16..20];
  }

  lemma FieldIsThere(p: seq<byte>, h: nat, total: u16, offset: nat)
    requires |p| >= 20 && h == p[0] % 16 * 4 && total == 256 * (p[2] as int) + p[3]
    requires 20 <= h <= total <= |p| && HoldsChecksum(p[9], total - h, offset)
    ensures WellFormed(p) && HeaderLen(p) == h && U16At(p, 2) == total && FieldAt(p) == h + offset
  {
  }

  lemma RewriteKeepsTheRest(p: seq<byte>, src: Ipv4)
    requires WellFormed(p)
    ensures var r := Rewritten(p, src);
            && r[12..16] == src && Verifies(r[..HeaderLen(p)])
            && forall i | 0 <= i < |p| && !(10 <= i < 16) && !(FieldAt(p) <= i < FieldAt(p) + 2) :: r[i] == p[i]
  {
    AddressIsReplaced(p, SRC_AT, src);
    var q := WithAddress(p, SRC_AT, src);
    SameShape(p, q);
    HeaderMadeSound(p, SRC_AT, src);
    TransportKeepsShape(q);
  }

  lemma RewriteSums(p: seq<byte>, src: Ipv4)
    requires WellFormed(p)
    ensures var r := Rewritten(p, src);
            WellFormed(r) && FieldAt(r) == FieldAt(p) && SegmentVerifies(r) && U16At(r, FieldAt(r)) != 0
  {
    AddressIsReplaced(p, SRC_AT, src);
    var q := WithAddress(p, SRC_AT, src);
    SameShape(p, q);
    TransportKeepsShape(q);
    TransportVerifies(q);
  }

  /** A packet with any other body keeps all of it, and still gets its source and a correct header checksum. */
  lemma RewriteOfOthers(p: seq<byte>, src: Ipv4, h: nat, total: nat)
    requires |p| >= 20 && h == p[0] % 16 * 4 && total == 256 * (p[2] as int) + p[3] && 20 <= h <= |p|
    requires h <= total <= |p| ==> !HoldsChecksum(p[9], total - h, 16) && !HoldsChecksum(p[9], total - h, 6)
    ensures var r := Rewritten(p, src);
            && r[12..16] == src && Verifies(r[..h])
            && forall i | 0 <= i < |p| && !(10 <= i < 16) :: r[i] == p[i]
  {
    AddressIsReplaced(p, SRC_AT, src);
    var q := WithAddress(p, SRC_AT, src);
    HeaderLenKept(p, SRC_AT, src);
    HeaderMadeSound(p, SRC_AT, src);
    assert U16At(q, 2) == U16At(p, 2) && q[9] == p[9];
    assert WithTransport(q) == q;
  }

  const SMOLTCP_IP: Ipv4 := [10, 200, 0, 1]

  /**
   `rewrite_dst_ip_inbound`: a copy bound for the user-space stack. The header checksum is made
   good again; the transport checksum is left as it came.
   */
  method RewriteDstIpInbound(packet: seq<byte>) returns (r: Option<seq<byte>>)
    requires |packet| >= 20 ==> HeaderLen(packet) <= |packet|
    ensures r.Some? <==> |packet| >= 20 && Version(packet) == 4
    ensures r.Some? ==>
              && |r.value| == |packet| && r.value[16..20] == SMOLTCP_IP
              && (forall i | 0 <= i < |packet| && !(10 <= i < 12) && !(16 <= i < 20) :: r.value[i] == packet[i])
              && (HeaderLen(packet) >= 20 ==> Verifies(r.value[..HeaderLen(packet)]))
  {
    if |packet| < 20 || Version(packet) != 4 {
      return None;
    }
    var pkt := new byte[|packet|](i requires 0 <= i < |packet| => packet[i]);
    assert pkt[..] == packet;
    RewriteHeader(pkt, DST_AT, SMOLTCP_IP);
    AddressIsReplaced(packet, DST_AT, SMOLTCP_IP);
    if HeaderLen(packet) >= 20 {
      HeaderMadeSound(packet, DST_AT, SMOLTCP_IP);
    }
    r := Some(pkt[..]);
  }

  /** The segment rewritten in place, spelled out. */
  lemma TransportIs(q: seq<byte>) returns (start: nat, end: nat, k: nat)
    requires WellFormed(q)
    ensures start == HeaderLen(q) && end == U16At(q, 2) && start + k == FieldAt(q)
    ensures k % 2 == 0 && start + k + 1 < end
    ensures WithTransport(q) == Splice(q, start, WithChecksum(q[12..16], q[16..20], q[9], q[start..end], k))
  {
    start, end, k := HeaderLen(q), U16At(q, 2), FieldAt(q) - HeaderLen(q);
  }

  lemma TransportKeepsShape(q: seq<byte>)
    requires WellFormed(q)
    ensures var r := WithTransport(q);
            && WellFormed(r) && FieldAt(r) == FieldAt(q)
            && r[..HeaderLen(q)] == q[..HeaderLen(q)] && r[12..16] == q[12..16]
            && (forall i | 0 <= i < |q| && !(FieldAt(q) <= i < FieldAt(q) + 2) :: r[i] == q[i])
  {
    var start, end, k := TransportIs(q);
    SegmentMadeSound(q, start, end, k);
    SameShape(q, WithTransport(q));
  }

  lemma TransportVerifies(q: seq<byte>)
    requires WellFormed(q)
    ensures WellFormed(WithTransport(q)) && SegmentVerifies(WithTransport(q))
    ensures U16At(WithTransport(q), FieldAt(WithTransport(q))) != 0
  {
    var start, end, k := TransportIs(q);
    SegmentMadeSound(q, start, end, k);
    SameShape(q, WithTransport(q));
  }

  /** Well-formedness and the place of the checksum depend on four header bytes only. */
  lemma SameShape(q: seq<byte>, r: seq<byte>)
    requires WellFormed(q) && |r| == |q| && forall i | 0 <= i < 10 :: r[i] == q[i]
    ensures WellFormed(r) && HeaderLen(r) == HeaderLen(q) && U16At(r, 2) == U16At(q, 2) && FieldAt(r) == FieldAt(q)
  {
  }

  lemma SegmentMadeSound(q: seq<byte>, start: nat, end: nat, k: nat)
    requires |q| >= 20 && 20 <= start && start + k + 1 < end <= |q| && end < 0x1_0000 && k % 2 == 0
    ensures var r := Splice(q, start, WithChecksum(q[12..16], q[16..20], q[9], q[start..end], k));
            && r[..start] == q[..start]
            && r[12..16] == q[12..16] && r[16..20] == q[16..20]
            && (forall i | 0 <= i < |q| && !(start + k <= i < start + k + 2) :: r[i] == q[i])
            && Verifies(PseudoHeader(r[12..16], r[16..20], r[9], end - start) + r[start..end])
            && U16At(r, start + k) != 0
  {
    var segment := q[start..end];
    var c := TransportChecksum(q[12..16], q[16..20], q[9], Put16(segment, k, 0));
    SpliceField(q, start, end, k, c);
    StoredChecksumVerifies(PseudoHeader(q[12..16], q[16..20], q[9], |segment|), segment, k, c);
  }

  /** Storing the header checksum at offset 10 makes the header verify. */
  lemma HeaderMadeSound(p: seq<byte>, at: nat, ip: Ipv4)
    requires |p| >= 20 && 20 <= HeaderLen(p) <= |p| && (at == SRC_AT || at == DST_AT)
    ensures Verifies(WithAddress(p, at, ip)[..HeaderLen(p)])
  {
    var n, a := HeaderLen(p), Splice(p, at, ip);
    var c := Checksum(Put16(a, 10, 0)[..n]);
    PutThenTake(a, n, 0);
    PutThenTake(a, n, c);
    PutTwice(a, 10, 0, c);
    SealVerifies(a[..n], 10, c);
  }

  /** With nothing in front, the stored checksum of a region makes the region verify. */
  lemma SealVerifies(region: seq<byte>, k: nat, c: u16)
    requires k % 2 == 0 && k + 1 < |region| && c == Checksum(Put16(region, k, 0))
    ensures Verifies(Put16(region, k, c))
  {
    assert [] + Put16(region, k, 0) == Put16(region, k, 0);
    assert [] + Put16(region, k, c) == Put16(region, k, c);
    StoredChecksumVerifies([], region, k, c);
  }

  lemma PutThenTake(a: seq<byte>, n: nat, v: u16)
    requires 20 <= n <= |a|
    ensures Put16(a, 10, v)[..n] == Put16(a[..n], 10, v)
  {
  }

  lemma PutTwice(a: seq<byte>, k: nat, v: u16, w: u16)
    requires k + 1 < |a|
    ensures Put16(Put16(a, k, v), k, w) == Put16(a, k, w)
  {
  }

  lemma AddressIsReplaced(p: seq<byte>, at: nat, ip: Ipv4)
    requires |p| >= 20 && HeaderLen(p) <= |p| && (at == SRC_AT || at == DST_AT)
    ensures var q := WithAddress(p, at, ip);
            && q[at..at + 4] == ip
            && forall i | 0 <= i < |p| && !(10 <= i < 12) && !(at <= i < at + 4) :: q[i] == p[i]
  {
  }

  // ---- The layout of any packet ---------------------------------------------

  function Bytes16(v: u16): (r: seq<byte>)
    ensures |r| == 2 && v == 256 * (r[0] as int) + r[1]
  {
    [v / 256, v % 256]
  }

  /** The fields of an IPv4 header, options included (section 3.1 of RFC 791). */
  datatype Ipv4Fields = Ipv4Fields(
    tos: byte, identification: u16, fragment: u16, ttl: byte, proto: byte, sum: u16, src: Ipv4, dst: Ipv4, options: seq<byte>)

  predicate HasLayout(f: Ipv4Fields) {
    |f.options| % 4 == 0 && |f.options| <= 40
  }

  /** A packet of those fields with any total length written in it. */
  function Packet(f: Ipv4Fields, total: u16, body: seq<byte>): (r: seq<byte>)
    requires HasLayout(f)
    ensures |r| == 20 + |f.options| + |body|
  {
    [0x45 + |f.options| / 4, f.tos] + Bytes16(total) + Bytes16(f.identification) + Bytes16(f.fragment)
    + [f.ttl, f.proto] + Bytes16(f.sum) + f.src + f.dst + (f.options + body)
  }

  lemma PacketFields(f: Ipv4Fields, total: u16, body: seq<byte>)
    requires HasLayout(f)
    ensures var p, h := Packet(f, total, body), 20 + |f.options|;
            && Version(p) == 4 && HeaderLen(p) == h
            && U16At(p, 2) == total && U16At(p, 4) == f.identification && U16At(p, 6) == f.fragment && p[9] == f.proto
            && p[12..16] == f.src && p[16..20] == f.dst && p[h..] == body
  {
    var p := Packet(f, total, body);
    assert p[0] == 0x45 + |f.options| / 4 && p[9] == f.proto;
    assert p[2..4] == Bytes16(total) && p[4..6] == Bytes16(f.identification) && p[6..8] == Bytes16(f.fragment);
    assert p[2] == p[2..4][0] && p[3] == p[2..4][1] && p[4] == p[4..6][0] && p[5] == p[4..6][1];
    assert p[6] == p[6..8][0] && p[7] == p[6..8][1];
    assert p[20..] == f.options + body;
    assert p[20 + |f.options|..] == p[20..][|f.options|..];
  }

  lemma SliceBehind(p: seq<byte>, h: nat, a: nat, b: nat)
    requires a <= b && h + b <= |p|
    ensures p[h + a..h + b] == p[h..][a..b]
  {
  }

  /** Sixteen-bit fields of a body, seen from the packet. */
  lemma BodyField(p: seq<byte>, h: nat, body: seq<byte>, k: nat)
    requires h <= |p| && p[h..] == body && k + 1 < |body|
    ensures U16At(p, h + k) == U16At(body, k) && p[h + k] == body[k]
  {
    assert p[h + k] == p[h..][k] && p[h + k + 1] == p[h..][k + 1];
  }

  // ---- Building and parsing UDP ---------------------------------------------

  datatype UdpPacket = UdpPacket(src: Ipv4, dst: Ipv4, srcPort: u16, dstPort: u16, payload: seq<byte>, identification: u16)

  /** A 20-byte header with the don't-fragment bit, TTL 64 and the given checksum. */
  function HeaderBytes(total: u16, identification: u16, proto: byte, src: Ipv4, dst: Ipv4, sum: u16): (r: seq<byte>)
    ensures |r| == 20
  {
    FixedPart(total, identification, proto, sum) + src + dst
  }

  function FixedPart(total: u16, identification: u16, proto: byte, sum: u16): (r: seq<byte>)
    ensures |r| == 12
  {
    [0x45, 0, total / 0x100, total % 0x100, identification / 0x100, identification % 0x100, 0x40, 0,
     64, proto, sum / 0x100, sum % 0x100]
  }

  function SealedHeader(total: u16, identification: u16, proto: byte, src: Ipv4, dst: Ipv4): (r: seq<byte>)
    ensures |r| == 20
  {
    HeaderBytes(total, identification, proto, src, dst, Checksum(HeaderBytes(total, identification, proto, src, dst, 0)))
  }

  lemma SealedHeaderVerifies(total: u16, identification: u16, proto: byte, src: Ipv4, dst: Ipv4)
    ensures Verifies(SealedHeader(total, identification, proto, src, dst))
  {
    var h := HeaderBytes(total, identification, proto, src, dst, 0);
    assert Put16(h, 10, 0) == h;
    assert Put16(h, 10, Checksum(h)) == SealedHeader(total, identification, proto, src, dst);
    SealVerifies(h, 10, Checksum(h));
  }

  lemma HeaderFields(total: u16, identification: u16, proto: byte, src: Ipv4, dst: Ipv4, sum: u16, body: seq<byte>)
    ensures var p := HeaderBytes(total, identification, proto, src, dst, sum) + body;
            && Version(p) == 4 && HeaderLen(p) == 20
            && U16At(p, 2) == total && U16At(p, 4) == identification && U16At(p, 6) == 0x4000 && p[9] == proto
            && p[..2] == [0x45, 0] && p[6..10] == [0x40, 0, 64, proto]
            && p[12..16] == src && p[16..20] == dst
            && p[..20] == HeaderBytes(total, identification, proto, src, dst, sum) && p[20..] == body
  {
    var p := HeaderBytes(total, identification, proto, src, dst, sum) + body;
    assert p[0] == 0x45 && p[2] == total / 0x100 && p[3] == total % 0x100;
    assert p[4] == identification / 0x100 && p[5] == identification % 0x100 && p[6] == 0x40 && p[7] == 0;
  }

  lemma BodyFields(header: seq<byte>, body: seq<byte>)
    requires |header| == 20 && |body| >= 8
    ensures var p := header + body;
            && p[20] == body[0] && p[21] == body[1]
            && U16At(p, 20) == U16At(body, 0) && U16At(p, 22) == U16At(body, 2)
            && U16At(p, 24) == U16At(body, 4) && U16At(p, 26) == U16At(body, 6)
            && p[28..|p|] == body[8..] && p[20..|p|] == body
  {
  }

  function Datagram(srcPort: u16, dstPort: u16, sum: u16, payload: seq<byte>): (r: seq<byte>)
    requires |payload| <= 65527
    ensures |r| == 8 + |payload|
  {
    DatagramHead(srcPort, dstPort, 8 + |payload|, sum) + payload
  }

  function DatagramHead(srcPort: u16, dstPort: u16, len: u16, sum: u16): (r: seq<byte>)
    ensures |r| == 8
  {
    [srcPort / 0x100, srcPort % 0x100, dstPort / 0x100, dstPort % 0x100,
     len / 0x100, len % 0x100, sum / 0x100, sum % 0x100]
  }

  /** What `build_ipv4_udp_packet` builds; `None` is the "too large" error. */
  function BuildUdp(u: UdpPacket): (r: Option<seq<byte>>) {
    var total := 28 + |u.payload|;
    if total > 0xffff then None
    else
      var blank := Datagram(u.srcPort, u.dstPort, 0, u.payload);
      var sum := TransportChecksum(u.src, u.dst, UDP, blank);
      Some(SealedHeader(total, u.identification, UDP, u.src, u.dst) + Datagram(u.srcPort, u.dstPort, sum, u.payload))
  }

  method BuildIpv4UdpPacket(u: UdpPacket) returns (r: Option<seq<byte>>)
    ensures r == BuildUdp(u)
  {
    var total := 28 + |u.payload|;
    if total > 0xffff {
      return None;
    }
    var pkt := new byte[total](_ => 0);
    FillHeader(pkt, total, u.identification, UDP, u.src, u.dst);
    var head := DatagramHead(u.srcPort, u.dstPort, 8 + |u.payload|, 0);
    ghost var blank, filled := Datagram(u.srcPort, u.dstPort, 0, u.payload), pkt[..];
    CopyInto(pkt, 20, head);
    CopyInto(pkt, 28, u.payload);
    BodyFollows(filled, head, u.payload);
    HeaderFields(total, u.identification, UDP, u.src, u.dst, 0, blank);
    SealHeader(pkt, total, u.identification, UDP, u.src, u.dst, blank);
    assert pkt[20..] == blank;
    var sum := TcpUdpChecksumIpv4(u.src, u.dst, UDP, pkt[20..]);
    CopyInto(pkt, 26, [sum / 0x100, sum % 0x100]);
    DatagramFields(u.srcPort, u.dstPort, sum, u.payload);
    SpliceBehind(SealedHeader(total, u.identification, UDP, u.src, u.dst), blank, 6, sum);
    r := Some(pkt[..]);
  }

  /** The fixed header fields of a new packet, its checksum still zero. */
  method FillHeader(pkt: array<byte>, total: u16, identification: u16, proto: byte, src: Ipv4, dst: Ipv4)
    requires pkt.Length >= 20
    modifies pkt
    ensures pkt[..] == HeaderBytes(total, identification, proto, src, dst, 0) + old(pkt[..])[20..]
  {
    var fixed := FixedPart(total, identification, proto, 0);
    ghost var was := pkt[..];
    CopyInto(pkt, 0, fixed);
    CopyInto(pkt, 12, src);
    CopyInto(pkt, 16, dst);
    AddressesFollow(was, fixed, src, dst);
  }

  lemma AddressesFollow(p: seq<byte>, fixed: seq<byte>, src: Ipv4, dst: Ipv4)
    requires |fixed| == 12 && |p| >= 20
    ensures Splice(Splice(Splice(p, 0, fixed), 12, src), 16, dst) == fixed + src + dst + p[20..]
  {
    var a := Splice(p, 0, fixed);
    var b := Splice(a, 12, src);
    forall i | 0 <= i < |p| ensures Splice(b, 16, dst)[i] == (fixed + src + dst + p[20..])[i] {
      SpliceAt(p, 0, fixed, i);
      SpliceAt(a, 12, src, i);
      SpliceAt(b, 16, dst, i);
    }
  }

  lemma BodyFollows(p: seq<byte>, head: seq<byte>, payload: seq<byte>)
    requires |head| == 8 && |p| == 28 + |payload|
    ensures Splice(Splice(p, 20, head), 28, payload) == p[..20] + (head + payload)
  {
  }

  /** The header checksum goes in last, over a header where it is zero. */
  method SealHeader(pkt: array<byte>, ghost total: u16, ghost identification: u16, ghost proto: byte, ghost src: Ipv4, ghost dst: Ipv4,
                    ghost body: seq<byte>)
    requires pkt[..] == HeaderBytes(total, identification, proto, src, dst, 0) + body
    modifies pkt
    ensures pkt[..] == SealedHeader(total, identification, proto, src, dst) + body
  {
    ghost var h := HeaderBytes(total, identification, proto, src, dst, 0);
    assert pkt[..20] == h;
    var sum := HeaderSum(pkt[..20]);
    CopyInto(pkt, 10, [sum / 0x100, sum % 0x100]);
    assert Splice(h + body, 10, [sum / 0x100, sum % 0x100]) == HeaderBytes(total, identification, proto, src, dst, sum) + body;
  }

  /** A field written behind a 20-byte header is written in what follows it. */
  lemma SpliceBehind(header: seq<byte>, body: seq<byte>, k: nat, v: u16)
    requires |header| == 20 && k + 1 < |body|
    ensures Splice(header + body, 20 + k, [v / 0x100, v % 0x100]) == header + Put16(body, k, v)
  {
  }

  /** `parse_ipv4_udp_packet`. */
  function ParseUdp(p: seq<byte>): (r: Option<UdpPacket>) {
    if |p| < 28 || Version(p) != 4 || HeaderLen(p) < 20 || p[9] != UDP then None
    else
      var h := HeaderLen(p);
      var total := U16At(p, 2);
      if |p| < h + 8 || total < h + 8 || total > |p| || U16At(p, 6) % 0x4000 != 0 then None
      else
        var len := U16At(p, h + 4);
        if len < 8 || h + len > total then None
        else Some(UdpPacket(p[12..16], p[16..20], U16At(p, h), U16At(p, h + 2), p[h + 8..h + len], U16At(p, 4)))
  }

  lemma DatagramFields(srcPort: u16, dstPort: u16, sum: u16, payload: seq<byte>)
    requires |payload| <= 65527
    ensures var d := Datagram(srcPort, dstPort, sum, payload);
            && U16At(d, 0) == srcPort && U16At(d, 2) == dstPort && U16At(d, 4) == 8 + |payload|
            && d[8..] == payload
            && d == Put16(Datagram(srcPort, dstPort, 0, payload), 6, sum)
  {
  }

  lemma ParseBuiltUdp(u: UdpPacket)
    ensures BuildUdp(u).Some? <==> |u.payload| <= 65507
    ensures BuildUdp(u).Some? ==> ParseUdp(BuildUdp(u).value) == Some(u)
  {
    if |u.payload| <= 65507 {
      var total := 28 + |u.payload|;
      var sum := TransportChecksum(u.src, u.dst, UDP, Datagram(u.srcPort, u.dstPort, 0, u.payload));
      ParseUdpFields(u, total, Checksum(HeaderBytes(total, u.identification, UDP, u.src, u.dst, 0)), sum);
    }
  }

  /** The parser does not look at either checksum. */
  lemma ParseUdpFields(u: UdpPacket, total: u16, headerSum: u16, sum: u16)
    requires total == 28 + |u.payload|
    ensures ParseUdp(HeaderBytes(total, u.identification, UDP, u.src, u.dst, headerSum)
                     + Datagram(u.srcPort, u.dstPort, sum, u.payload)) == Some(u)
  {
    var h, d := HeaderBytes(total, u.identification, UDP, u.src, u.dst, headerSum), Datagram(u.srcPort, u.dstPort, sum, u.payload);
    HeaderFields(total, u.identification, UDP, u.src, u.dst, headerSum, d);
    DatagramFields(u.srcPort, u.dstPort, sum, u.payload);
    BodyFields(h, d);
  }

  /** Every packet the parser accepts can be rebuilt from its fields, and parses to the same fields again. */
  lemma RebuiltUdpParsesTheSame(p: seq<byte>)
    requires ParseUdp(p).Some?
    ensures var u := ParseUdp(p).value;
            BuildUdp(u).Some? && ParseUdp(BuildUdp(u).value) == Some(u)
  {
    ParseBuiltUdp(ParseUdp(p).value);
  }

  lemma BuiltUdpVerifies(u: UdpPacket)
    requires BuildUdp(u).Some?
    ensures var p := BuildUdp(u).value;
            && p[..2] == [0x45, 0] && p[6..10] == [0x40, 0, 64, 17]
            && Verifies(p[..20])
            && Verifies(u.src + u.dst + [0, 17, |p[20..]| / 256, |p[20..]| % 256] + p[20..])
  {
    var total := 28 + |u.payload|;
    var blank := Datagram(u.srcPort, u.dstPort, 0, u.payload);
    var sum := TransportChecksum(u.src, u.dst, UDP, blank);
    var d := Datagram(u.srcPort, u.dstPort, sum, u.payload);
    SealedHeaderVerifies(total, u.identification, UDP, u.src, u.dst);
    HeaderFields(total, u.identification, UDP, u.src, u.dst, Checksum(HeaderBytes(total, u.identification, UDP, u.src, u.dst, 0)), d);
    BodyFields(SealedHeader(total, u.identification, UDP, u.src, u.dst), d);
    SealedDatagramVerifies(u, sum);
  }

  lemma SealedDatagramVerifies(u: UdpPacket, sum: u16)
    requires |u.payload| <= 65507
    requires sum == TransportChecksum(u.src, u.dst, UDP, Datagram(u.srcPort, u.dstPort, 0, u.payload))
    ensures Verifies(PseudoHeader(u.src, u.dst, UDP, 8 + |u.payload|) + Datagram(u.srcPort, u.dstPort, sum, u.payload))
  {
    var blank := Datagram(u.srcPort, u.dstPort, 0, u.payload);
    DatagramFields(u.srcPort, u.dstPort, 0, u.payload);
    DatagramFields(u.srcPort, u.dstPort, sum, u.payload);
    StoredChecksumVerifies(PseudoHeader(u.src, u.dst, UDP, |blank|), blank, 6, sum);
  }

  function UdpBody(srcPort: u16, dstPort: u16, len: u16, sum: u16, rest: seq<byte>): (r: seq<byte>)
    ensures |r| == 8 + |rest|
  {
    Bytes16(srcPort) + Bytes16(dstPort) + Bytes16(len) + Bytes16(sum) + rest
  }

  lemma UdpBodyFields(srcPort: u16, dstPort: u16, len: u16, sum: u16, rest: seq<byte>)
    ensures var body := UdpBody(srcPort, dstPort, len, sum, rest);
            U16At(body, 0) == srcPort && U16At(body, 2) == dstPort && U16At(body, 4) == len && body[8..] == rest
  {
    var body := UdpBody(srcPort, dstPort, len, sum, rest);
    assert body[0..2] == Bytes16(srcPort) && body[2..4] == Bytes16(dstPort) && body[4..6] == Bytes16(len);
    assert body[0] == body[0..2][0] && body[1] == body[0..2][1] && body[2] == body[2..4][0] && body[3] == body[2..4][1];
    assert body[4] == body[4..6][0] && body[5] == body[4..6][1];
  }

  lemma ParseUdpByFields(p: seq<byte>, h: nat, body: seq<byte>)
    requires 20 <= h && |p| == h + |body| && p[h..] == body && |body| >= 8 && Version(p) == 4 && HeaderLen(p) == h
    ensures var total, len := U16At(p, 2), U16At(body, 4);
            ParseUdp(p) ==
            if p[9] == 17 && U16At(p, 6) % 0x4000 == 0 && 8 <= len && h + len <= total <= h + |body|
            then Some(UdpPacket(p[12..16], p[16..20], U16At(body, 0), U16At(body, 2), body[8..len], U16At(p, 4))) else None
  {
    BodyField(p, h, body, 0);
    BodyField(p, h, body, 2);
    BodyField(p, h, body, 4);
    var total, len := U16At(p, 2), U16At(body, 4);
    if 8 <= len && h + len <= total <= h + |body| {
      SliceBehind(p, h, 8, len);
    }
  }

  /** Of every packet with an IPv4 header, options or not: which the parser takes, and what it reads off them. */
  lemma ParseUdpIff(f: Ipv4Fields, total: u16, srcPort: u16, dstPort: u16, len: u16, sum: u16, rest: seq<byte>)
    requires HasLayout(f)
    ensures var h, body := 20 + |f.options|, UdpBody(srcPort, dstPort, len, sum, rest);
            ParseUdp(Packet(f, total, body)) ==
            if f.proto == 17 && f.fragment % 0x4000 == 0 && 8 <= len && h + len <= total <= h + |body|
            then Some(UdpPacket(f.src, f.dst, srcPort, dstPort, rest[..len - 8], f.identification)) else None
  {
    var h, body := 20 + |f.options|, UdpBody(srcPort, dstPort, len, sum, rest);
    PacketFields(f, total, body);
    UdpBodyFields(srcPort, dstPort, len, sum, rest);
    ParseUdpByFields(Packet(f, total, body), h, body);
    if 8 <= len <= |body| {
      assert body[8..len] == body[8..][..len - 8];
    }
  }

  /** Nothing else is a packet to it: too short, another version, or a header length below 20. */
  lemma ParseUdpRejects(p: seq<byte>)
    requires |p| < 28 || p[0] / 16 != 4 || p[0] % 16 < 5
    ensures ParseUdp(p) == None && ParseEcho(p) == None
  {
  }

  // ---- Building and parsing ICMP echo ---------------------------------------

  datatype EchoPacket = EchoPacket(src: Ipv4, dst: Ipv4, identification: u16, echoId: u16, echoSeq: u16, segment: seq<byte>)

  /** What `build_ipv4_icmp_packet` builds; `None` is either of its two length errors. */
  function BuildIcmp(src: Ipv4, dst: Ipv4, identification: u16, segment: seq<byte>): (r: Option<seq<byte>>) {
    if |segment| < 8 || 20 + |segment| > 0xffff then None
    else Some(SealedHeader(20 + |segment|, identification, ICMP, src, dst) + SealedIcmp(segment))
  }

  function SealedIcmp(segment: seq<byte>): (r: seq<byte>)
    requires |segment| >= 8
    ensures |r| == |segment|
  {
    Put16(segment, 2, Checksum(Put16(segment, 2, 0)))
  }

  method BuildIpv4IcmpPacket(src: Ipv4, dst: Ipv4, identification: u16, segment: seq<byte>) returns (r: Option<seq<byte>>)
    ensures r == BuildIcmp(src, dst, identification, segment)
  {
    if |segment| < 8 {
      return None;
    }
    var total := 20 + |segment|;
    if total > 0xffff {
      return None;
    }
    var pkt := new byte[total](_ => 0);
    FillHeader(pkt, total, identification, ICMP, src, dst);
    ghost var h := HeaderBytes(total, identification, ICMP, src, dst, 0);
    CopyInto(pkt, 20, segment);
    assert pkt[..] == h + segment;
    CopyInto(pkt, 22, [0, 0]);
    SpliceBehind(h, segment, 2, 0);
    assert pkt[20..] == Put16(segment, 2, 0);
    var sum := OnesComplementSum(pkt[20..]);
    CopyInto(pkt, 22, [sum / 0x100, sum % 0x100]);
    SpliceBehind(h, Put16(segment, 2, 0), 2, sum);
    PutTwice(segment, 2, 0, sum);
    SealHeader(pkt, total, identification, ICMP, src, dst, SealedIcmp(segment));
    r := Some(pkt[..]);
  }

  /** `parse_ipv4_icmp_echo_packet`. */
  function ParseEcho(p: seq<byte>): (r: Option<EchoPacket>) {
    if |p| < 28 || Version(p) != 4 || HeaderLen(p) < 20 || p[9] != ICMP then None
    else
      var h := HeaderLen(p);
      var total := U16At(p, 2);
      if |p| < h + 8 || total < h + 8 || total > |p| || U16At(p, 6) % 0x4000 != 0 || p[h] != 8 || p[h + 1] != 0 then None
      else Some(EchoPacket(p[12..16], p[16..20], U16At(p, 4), U16At(p, h + 4), U16At(p, h + 6), p[h..total]))
  }

  /** A built ICMP packet verifies, and an echo request comes back with every field and a sealed segment. */
  lemma BuiltIcmpIsSound(src: Ipv4, dst: Ipv4, identification: u16, segment: seq<byte>)
    ensures BuildIcmp(src, dst, identification, segment).Some? <==> 8 <= |segment| <= 65515
    ensures BuildIcmp(src, dst, identification, segment).Some? ==>
              var p := BuildIcmp(src, dst, identification, segment).value;
              && p[..2] == [0x45, 0] && p[6..10] == [0x40, 0, 64, 1]
              && Verifies(p[..20]) && Verifies(p[20..])
              && ParseEcho(p) ==
                 if segment[0] == 8 && segment[1] == 0
                 then Some(EchoPacket(src, dst, identification, U16At(segment, 4), U16At(segment, 6), SealedIcmp(segment)))
                 else None
  {
    if 8 <= |segment| <= 65515 {
      var total, sealed := 20 + |segment|, SealedIcmp(segment);
      SealedHeaderVerifies(total, identification, ICMP, src, dst);
      HeaderFields(total, identification, ICMP, src, dst, Checksum(HeaderBytes(total, identification, ICMP, src, dst, 0)), sealed);
      BodyFields(SealedHeader(total, identification, ICMP, src, dst), sealed);
      SealedIcmpVerifies(segment);
    }
  }

  function IcmpBody(kind: byte, code: byte, sum: u16, echoId: u16, echoSeq: u16, rest: seq<byte>): (r: seq<byte>)
    ensures |r| == 8 + |rest|
  {
    [kind, code] + Bytes16(sum) + Bytes16(echoId) + Bytes16(echoSeq) + rest
  }

  lemma IcmpBodyFields(kind: byte, code: byte, sum: u16, echoId: u16, echoSeq: u16, rest: seq<byte>)
    ensures var body := IcmpBody(kind, code, sum, echoId, echoSeq, rest);
            body[0] == kind && body[1] == code && U16At(body, 4) == echoId && U16At(body, 6) == echoSeq
  {
    var body := IcmpBody(kind, code, sum, echoId, echoSeq, rest);
    assert body[4..6] == Bytes16(echoId) && body[6..8] == Bytes16(echoSeq);
    assert body[4] == body[4..6][0] && body[5] == body[4..6][1] && body[6] == body[6..8][0] && body[7] == body[6..8][1];
  }

  lemma ParseEchoByFields(p: seq<byte>, h: nat, body: seq<byte>)
    requires 20 <= h && |p| == h + |body| && p[h..] == body && |body| >= 8 && Version(p) == 4 && HeaderLen(p) == h
    ensures var total := U16At(p, 2);
            ParseEcho(p) ==
            if p[9] == 1 && U16At(p, 6) % 0x4000 == 0 && body[0] == 8 && body[1] == 0 && h + 8 <= total <= h + |body|
            then Some(EchoPacket(p[12..16], p[16..20], U16At(p, 4), U16At(body, 4), U16At(body, 6), body[..total - h])) else None
  {
    BodyField(p, h, body, 0);
    BodyField(p, h, body, 1);
    BodyField(p, h, body, 4);
    BodyField(p, h, body, 6);
    var total := U16At(p, 2);
    if h <= total <= h + |body| {
      SliceBehind(p, h, 0, total - h);
    }
  }

  /** Of every packet with an IPv4 header: exactly unfragmented echo requests of 8 bytes or more are taken, whole. */
  lemma ParseEchoIff(f: Ipv4Fields, total: u16, kind: byte, code: byte, sum: u16, echoId: u16, echoSeq: u16, rest: seq<byte>)
    requires HasLayout(f)
    ensures var h, body := 20 + |f.options|, IcmpBody(kind, code, sum, echoId, echoSeq, rest);
            ParseEcho(Packet(f, total, body)) ==
            if f.proto == 1 && f.fragment % 0x4000 == 0 && kind == 8 && code == 0 && h + 8 <= total <= h + |body|
            then Some(EchoPacket(f.src, f.dst, f.identification, echoId, echoSeq, body[..total - h])) else None
  {
    var h, body := 20 + |f.options|, IcmpBody(kind, code, sum, echoId, echoSeq, rest);
    PacketFields(f, total, body);
    IcmpBodyFields(kind, code, sum, echoId, echoSeq, rest);
    ParseEchoByFields(Packet(f, total, body), h, body);
  }

  lemma SealedIcmpVerifies(segment: seq<byte>)
    requires |segment| >= 8
    ensures Verifies(SealedIcmp(segment))
  {
    SealVerifies(segment, 2, Checksum(Put16(segment, 2, 0)));
  }

  // ---- The carrier header for WireGuard -------------------------------------

  const FAKE_SRC: Ipv4 := [100, 64, 0, 1]
  const FAKE_DST: Ipv4 := [100, 64, 0, 2]

  /** `wrap_in_ipv4`. The length field is truncated to 16 bits, as the source's cast does. */
  method WrapInIpv4(payload: seq<byte>) returns (pkt: seq<byte>)
    ensures |pkt| == 20 + |payload|
    ensures Version(pkt) == 4 && HeaderLen(pkt) == 20
    ensures U16At(pkt, 2) == |pkt| % 0x1_0000
    ensures pkt[12..16] == FAKE_SRC && pkt[16..20] == FAKE_DST && pkt[8] == 64 && pkt[9] == 253
    ensures Verifies(pkt[..20])
    ensures UnwrapFromIpv4(pkt) == Some(payload)
  {
    var total := (20 + |payload|) % 0x1_0000;
    var header := CarrierHeader(total);
    var sum: u32 := SumWords(header);
    FoldedSum(header);
    while sum / 0x1_0000 != 0
      invariant Folded(sum) == EndAroundSum(header)
      decreases sum
    {
      FoldOnce(sum);
      sum := sum % 0x1_0000 + sum / 0x1_0000;
    }
    CarrierIsSound(total, payload);
    assert Folded(sum) == sum;
    pkt := Put16(header, 10, 0xffff - sum) + payload;
  }

  /** The header before its checksum is filled in. */
  function CarrierHeader(total: u16): (r: seq<byte>)
    ensures |r| == 20
  {
    [0x45, 0, total / 0x100, total % 0x100, 0, 0, 0, 0, 64, 253, 0, 0] + FAKE_SRC + FAKE_DST
  }

  ghost function Carrier(total: u16, payload: seq<byte>): (r: seq<byte>)
    ensures |r| == 20 + |payload|
  {
    Put16(CarrierHeader(total), 10, Checksum(CarrierHeader(total))) + payload
  }

  lemma CarrierIsSound(total: u16, payload: seq<byte>)
    ensures var p := Carrier(total, payload);
            p[0] == 0x45 && p[2] == total / 0x100 && p[3] == total % 0x100 && p[8] == 64 && p[9] == 253
    ensures Carrier(total, payload)[12..16] == FAKE_SRC && Carrier(total, payload)[16..20] == FAKE_DST
    ensures Carrier(total, payload)[20..] == payload
    ensures Verifies(Carrier(total, payload)[..20])
  {
    var h := CarrierHeader(total);
    var p, sealed := Carrier(total, payload), Put16(h, 10, Checksum(h));
    assert h[0] == 0x45 && h[2] == total / 0x100 && h[3] == total % 0x100 && h[8] == 64 && h[9] == 253;
    assert h[12..16] == FAKE_SRC && h[16..20] == FAKE_DST;
    assert forall i | 0 <= i < 20 && i != 10 && i != 11 :: p[i] == h[i];
    assert p[12..16] == h[12..16] && p[16..20] == h[16..20];
    assert p[..20] == sealed && Put16(h, 10, 0) == h;
    SealVerifies(h, 10, Checksum(h));
  }

  /** `unwrap_from_ipv4`; `None` is either of its two length errors. */
  function UnwrapFromIpv4(p: seq<byte>): (r: Option<seq<byte>>)
    ensures r.Some? <==> |p| >= 20 && |p| >= HeaderLen(p)
    ensures r.Some? ==> p[..HeaderLen(p)] + r.value == p
  {
    if |p| < 20 || |p| < HeaderLen(p) then None else Some(p[HeaderLen(p)..])
  }
}
