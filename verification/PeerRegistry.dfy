/**
 The WireGuard peer registry: addresses 100.64.1.1 to 100.64.1.254 handed out cyclically under
 leases, pruned when leases lapse, written to a file after changes and read back at start.
 The clock is an input; a missing file and an empty one load alike and are not told apart.
 */
module PeerRegistry {
  import opened Octets
  import opened Packets
  import opened Sequences
  import opened Wrappers

  datatype Peer = Peer(device: string, wgKey: string, ip: Ipv4, expires: u64)

  type Peers = map<string, Peer>

  // ---- Address allocation ---------------------------------------------------

  const HOSTS := 254

  function NormalizeOctet(octet: byte): (r: byte)
    ensures 1 <= r <= HOSTS && (1 <= octet <= HOSTS ==> r == octet) && (octet == 0 || octet == 255 ==> r == 1)
  {
    if octet == 0 || octet == 255 then 1 else octet
  }

  function SaturatingSucc(octet: byte): (r: byte)
    ensures r >= octet && (octet < 255 ==> r == octet + 1)
  {
    if octet == 255 then 255 else octet + 1
  }

  ghost predicate InUse(peers: Peers, octet: byte) {
    exists d :: d in peers && peers[d].ip[3] == octet
  }

  /** The octet tried at `offset`, counting cyclically through 1 to 254. */
  function Candidate(start: byte, offset: nat): (r: byte)
    requires 1 <= start <= HOSTS
    ensures 1 <= r <= HOSTS
  {
    (start - 1 + offset) % HOSTS + 1
  }

  /** The scan visits every host octet once. */
  lemma ScanVisitsEachOnce(start: byte, octet: byte)
    requires 1 <= start <= HOSTS && 1 <= octet <= HOSTS
    ensures exists k :: 0 <= k < HOSTS && Candidate(start, k) == octet
    ensures forall j, k | 0 <= j < HOSTS && 0 <= k < HOSTS && Candidate(start, j) == octet == Candidate(start, k) :: j == k
  {
    var k := if octet >= start then octet - start else octet - start + HOSTS;
    assert Candidate(start, k) == octet;
  }

  /** The scan starts at the cursor and goes up by one, from 254 on to 1. */
  lemma ScanGoesRound(start: byte, offset: nat)
    requires 1 <= start <= HOSTS
    ensures Candidate(start, 0) == start
    ensures Candidate(start, offset + 1) == if Candidate(start, offset) == 254 then 1 else Candidate(start, offset) + 1
  {
  }

  /** The first free octet in the order of the scan. */
  ghost predicate FirstFree(peers: Peers, start: byte, octet: byte)
    requires 1 <= start <= HOSTS
  {
    exists k :: 0 <= k < HOSTS && Candidate(start, k) == octet && !InUse(peers, octet)
                && forall j | 0 <= j < k :: InUse(peers, Candidate(start, j))
  }

  ghost predicate Exhausted(peers: Peers) {
    forall octet: byte | 1 <= octet <= HOSTS :: InUse(peers, octet)
  }

  method AllocatePeerIp(peers: Peers, nextOctet: byte) returns (ip: Option<Ipv4>, next: byte)
    ensures ip.None? <==> Exhausted(peers)
    ensures ip.None? ==> next == nextOctet
    ensures ip.Some? ==> ip.value[..3] == [100, 64, 1] && FirstFree(peers, NormalizeOctet(nextOctet), ip.value[3])
    ensures ip.Some? ==> next == if ip.value[3] == 254 then 1 else ip.value[3] + 1
  {
    var start := NormalizeOctet(nextOctet);
    for offset := 0 to HOSTS
      invariant forall j | 0 <= j < offset :: InUse(peers, Candidate(start, j))
    {
      var candidate := Candidate(start, offset);
      var inUse := exists d | d in peers :: peers[d].ip[3] == candidate;
      if !inUse {
        assert !InUse(peers, candidate);
        return Some([100, 64, 1, candidate]), NormalizeOctet(SaturatingSucc(candidate));
      }
    }
    forall octet: byte | 1 <= octet <= HOSTS ensures InUse(peers, octet) {
      ScanVisitsEachOnce(start, octet);
    }
    return None, nextOctet;
  }

  /** Devices file under their own key, on distinct host octets. */
  ghost predicate Sound(peers: Peers) {
    && Keyed(peers)
    && (forall d | d in peers :: 1 <= peers[d].ip[3] <= HOSTS)
    && (forall d, e | d in peers && e in peers && d != e :: peers[d].ip[3] != peers[e].ip[3])
  }

  ghost predicate Keyed(peers: Peers) {
    forall d | d in peers :: peers[d].device == d
  }

  // ---- Leases ---------------------------------------------------------------

  /** The expiry `prune_expired_locked` goes by: zero never lapses. */
  predicate IsLive(p: Peer, now: u64) {
    p.expires == 0 || p.expires > now
  }

  ghost function Live(peers: Peers, now: u64): (r: Peers) {
    map d | d in peers && IsLive(peers[d], now) :: peers[d]
  }

  /** `unix_timestamp_after`. */
  function Expiry(now: u64, lease: u64): (r: u64)
    ensures now <= r <= now + lease && (now + lease <= MAX_U64 ==> r == now + lease) && (now + lease > MAX_U64 ==> r == MAX_U64)
  {
    if now + lease > MAX_U64 then MAX_U64 else now + lease
  }

  // ---- The file -------------------------------------------------------------

  /** A file written from `peers`: every peer once, in the order of the device keys. */
  ghost predicate Lists(file: seq<Peer>, peers: Peers) {
    && (forall i, j | 0 <= i < j < |file| :: Below(file[i].device, file[j].device))
    && (forall i | 0 <= i < |file| :: file[i].device in peers && peers[file[i].device] == file[i])
    && (forall d | d in peers :: peers[d] in file)
  }

  datatype Loaded = Loaded(peers: Peers, maxOctet: byte, normalized: bool)

  /** What the loop in `load_peers_file` has collected after reading `file`. */
  function Load(file: seq<Peer>, now: u64, defaultExpiry: u64): (r: Loaded) {
    if file == [] then Loaded(map[], 0, false)
    else
      var before := Load(file[..|file| - 1], now, defaultExpiry);
      var raw := file[|file| - 1];
      var peer := if raw.expires == 0 then raw.(expires := defaultExpiry) else raw;
      if peer.expires <= now then before.(normalized := true)
      else
        Loaded(before.peers[peer.device := peer],
               if before.maxOctet > peer.ip[3] then before.maxOctet else peer.ip[3],
               before.normalized || raw.expires == 0)
  }

  // ---- The registry as a whole ----------------------------------------------

  datatype Registry = Registry(peers: Peers, nextOctet: byte, file: seq<Peer>)

  /** An operation with its clock readings, in the order they are taken. */
  datatype Event =
    | Register(device: string, wgKey: string, now: u64, later: u64, lease: u64)
    | Prune(now: u64)
    | Restart(now: u64, later: u64, lease: u64)

  /** The file is rewritten from the new peers, or left alone if no lease has lapsed and nothing changed. */
  ghost predicate Persisted(s: Registry, now: u64, r: Registry) {
    Lists(r.file, r.peers) || (s.peers == Live(s.peers, now) == r.peers && r.file == s.file)
  }

  /** A new device on the first free address from the cursor, which moves on past it. */
  ghost predicate Enrolled(live: Peers, nextOctet: byte, p: Peer, r: Registry) {
    && FirstFree(live, NormalizeOctet(nextOctet), p.ip[3])
    && r.peers == live[p.device := p]
    && r.nextOctet == if p.ip[3] == 254 then 1 else p.ip[3] + 1
  }

  /** What each operation may do. */
  ghost predicate Next(s: Registry, e: Event, r: Registry) {
    match e
    case Prune(now) =>
      r.peers == Live(s.peers, now) && r.nextOctet == s.nextOctet && Persisted(s, now, r)
    case Register(device, wgKey, now, later, lease) =>
      var live, expires := Live(s.peers, now), Expiry(later, lease);
      && Persisted(s, now, r)
      && if device in live then
           r.nextOctet == s.nextOctet && r.peers == live[device := live[device].(wgKey := wgKey, expires := expires)]
         else if Exhausted(live) then
           r.nextOctet == s.nextOctet && r.peers == live
         else
           exists octet :: Enrolled(live, s.nextOctet, Peer(device, wgKey, [100, 64, 1, octet], expires), r)
    case Restart(now, later, lease) =>
      var l := Load(s.file, now, Expiry(later, lease));
      && r.peers == l.peers && r.nextOctet == (if l.maxOctet >= 254 then 1 else l.maxOctet + 1)
      && if l.normalized then Lists(r.file, r.peers) else r.file == s.file
  }

  class WireGuardPeerRegistry {
    var peers: Peers
    var nextOctet: byte
    const lease: u64
    /** The contents of the peers file. */
    var file: seq<Peer>

    ghost function View(): (r: Registry)
      reads this
    {
      Registry(peers, nextOctet, file)
    }

    /** `load_with_lease`, on what an earlier registry `s` left in the file. */
    constructor Load(lease: u64, now: u64, later: u64, ghost s: Registry, contents: seq<Peer>)
      requires contents == s.file
      ensures this.lease == lease && Next(s, Restart(now, later, lease), View())
      ensures Keyed(peers)
    {
      var loaded := LoadPeersFile(contents, now, Expiry(later, lease));
      LoadIsKeyed(contents, now, Expiry(later, lease));
      this.lease := lease;
      peers := loaded.peers;
      nextOctet := NormalizeOctet(SaturatingSucc(loaded.maxOctet));
      if loaded.normalized {
        var written := PersistPeersFile(loaded.peers);
        file := written;
      } else {
        file := contents;
      }
    }

    method PruneExpired(now: u64)
      requires Keyed(peers)
      modifies this`peers, this`file
      ensures Keyed(peers) && Next(old(View()), Prune(now), View())
    {
      var live := map d | d in peers && IsLive(peers[d], now) :: peers[d];
      if |live| != |peers| {
        file := PersistPeersFile(live);
      } else {
        SameSizeSameKeys(live.Keys, peers.Keys);
      }
      peers := live;
    }

    /** `register_peer_lease`; `None` where the source panics because no address is free. */
    method RegisterPeerLease(device: string, wgKey: string, now: u64, later: u64) returns (r: Option<Peer>)
      requires Keyed(peers)
      modifies this`peers, this`file, this`nextOctet
      ensures Keyed(peers) && Next(old(View()), Register(device, wgKey, now, later, lease), View())
      ensures r.None? <==> device !in peers
      ensures r.Some? ==> r.value == peers[device]
    {
      PruneExpired(now);
      var expires := Expiry(later, lease);
      if device in peers {
        var existing := peers[device];
        var renewed := existing.(wgKey := wgKey, expires := expires);
        peers := peers[device := renewed];
        if renewed != existing {
          file := PersistPeersFile(peers);
        }
        return Some(renewed);
      }
      var ip;
      ip, nextOctet := AllocatePeerIp(peers, nextOctet);
      if ip.None? {
        return None;
      }
      var peer := Peer(device, wgKey, ip.value, expires);
      assert ip.value == [100, 64, 1, ip.value[3]];
      ghost var live, cursor := peers, old(nextOctet);
      peers := peers[device := peer];
      file := PersistPeersFile(peers);
      assert Enrolled(live, cursor, peer, View());
      r := Some(peer);
    }

    /** `find_by_wg_key` answers from the peers whose lease has not lapsed. */
    method FindByWgKey(wgKey: string, now: u64) returns (r: Option<Peer>)
      requires Keyed(peers)
      modifies this`peers, this`file
      ensures Keyed(peers) && Next(old(View()), Prune(now), View())
      ensures r.Some? ==> r.value in peers.Values && r.value.wgKey == wgKey && IsLive(r.value, now)
      ensures r.None? ==> forall d | d in peers :: peers[d].wgKey != wgKey
    {
      PruneExpired(now);
      var left := peers.Keys;
      while left != {}
        invariant left <= peers.Keys
        invariant forall d | d in peers && d !in left :: peers[d].wgKey != wgKey
        decreases left
      {
        var d :| d in left;
        if peers[d].wgKey == wgKey {
          return Some(peers[d]);
        }
        left := left - {d};
      }
      r := None;
    }
  }

  method LoadPeersFile(file: seq<Peer>, now: u64, defaultExpiry: u64) returns (r: Loaded)
    ensures r == Load(file, now, defaultExpiry)
  {
    var peers: Peers, maxOctet: byte, normalized := map[], 0, false;
    for i := 0 to |file|
      invariant Loaded(peers, maxOctet, normalized) == Load(file[..i], now, defaultExpiry)
    {
      assert file[..i + 1][..i] == file[..i];
      var peer := file[i];
      if peer.expires == 0 {
        peer := peer.(expires := defaultExpiry);
        normalized := true;
      }
      if peer.expires <= now {
        normalized := true;
        continue;
      }
      maxOctet := if maxOctet > peer.ip[3] then maxOctet else peer.ip[3];
      peers := peers[peer.device := peer];
    }
    assert file[..|file|] == file;
    r := Loaded(peers, maxOctet, normalized);
  }

  /** `persist_peers_file`, taking the least key left in each turn where the source sorts. */
  method PersistPeersFile(peers: Peers) returns (file: seq<Peer>)
    requires Keyed(peers)
    ensures Lists(file, peers)
  {
    file := [];
    var left := peers.Keys;
    while left != {}
      invariant left <= peers.Keys
      invariant forall i, j | 0 <= i < j < |file| :: Below(file[i].device, file[j].device)
      invariant forall i, d | 0 <= i < |file| && d in left :: Below(file[i].device, d)
      invariant forall i | 0 <= i < |file| :: file[i].device in peers && peers[file[i].device] == file[i]
      invariant forall d | d in peers && d !in left :: peers[d] in file
      decreases left
    {
      ghost var least := LeastExists(left);
      var d :| d in left && forall e | e in left :: e == d || Below(d, e);
      file := file + [peers[d]];
      left := left - {d};
    }
  }

  lemma SameSizeSameKeys(a: set<string>, b: set<string>)
    requires a <= b && |a| == |b|
    ensures a == b
  {
    assert b == a + (b - a);
  }

  /** Entry `i` is loaded, unless a later one for its device replaces it. */
  predicate Counts(file: seq<Peer>, i: nat, now: u64, defaultExpiry: u64)
    requires i < |file|
  {
    (if file[i].expires == 0 then defaultExpiry else file[i].expires) > now
  }

  /** The cursor after a start is past the highest octet among the live entries of the file. */
  lemma {:induction false} HighestOctet(file: seq<Peer>, now: u64, defaultExpiry: u64)
    ensures var highest := Load(file, now, defaultExpiry).maxOctet;
            && (forall i | 0 <= i < |file| && Counts(file, i, now, defaultExpiry) :: file[i].ip[3] <= highest)
            && (highest > 0 ==> exists i :: 0 <= i < |file| && Counts(file, i, now, defaultExpiry) && file[i].ip[3] == highest)
  {
    if file != [] {
      var n := |file| - 1;
      var earlier := file[..n];
      HighestOctet(earlier, now, defaultExpiry);
      assert forall i | 0 <= i < n ::
          earlier[i] == file[i] && Counts(earlier, i, now, defaultExpiry) == Counts(file, i, now, defaultExpiry);
      var highest := Load(file, now, defaultExpiry).maxOctet;
      if highest > 0 && highest == Load(earlier, now, defaultExpiry).maxOctet {
        var i :| 0 <= i < n && Counts(earlier, i, now, defaultExpiry) && earlier[i].ip[3] == highest;
        assert Counts(file, i, now, defaultExpiry) && file[i].ip[3] == highest;
      } else if highest > 0 {
        assert Counts(file, n, now, defaultExpiry) && file[n].ip[3] == highest;
      }
    }
  }

  lemma {:induction false} LoadIsKeyed(file: seq<Peer>, now: u64, defaultExpiry: u64)
    ensures Keyed(Load(file, now, defaultExpiry).peers)
  {
    if file != [] {
      LoadIsKeyed(file[..|file| - 1], now, defaultExpiry);
    }
  }
}
