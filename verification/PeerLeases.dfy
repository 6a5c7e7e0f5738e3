/** What holds of the peer registry over whole runs: sound addresses, a file that agrees, leases that survive restarts. */
module PeerLeases {
  import opened Octets
  import opened PeerRegistry
  import opened Sequences

  // ---- Reading back what was written ----------------------------------------

  ghost predicate NoZero(file: seq<Peer>) {
    forall i | 0 <= i < |file| :: file[i].expires != 0
  }

  lemma {:induction false} DefaultIsUnused(file: seq<Peer>, now: u64, a: u64, b: u64)
    requires NoZero(file)
    ensures Load(file, now, a) == Load(file, now, b)
  {
    if file != [] {
      DefaultIsUnused(file[..|file| - 1], now, a, b);
    }
  }

  /** A loaded peer is an entry of the file, with a zero lease replaced. */
  lemma {:induction false} LoadedFrom(file: seq<Peer>, now: u64, dflt: u64, d: string) returns (i: nat)
    requires d in Load(file, now, dflt).peers
    ensures i < |file| && file[i].device == d
    ensures var p := Load(file, now, dflt).peers[d];
            p.expires > now && p == if file[i].expires == 0 then file[i].(expires := dflt) else file[i]
  {
    var last := |file| - 1;
    var raw := file[last];
    var expires := if raw.expires == 0 then dflt else raw.expires;
    if raw.device == d && expires > now {
      i := last;
    } else {
      i := LoadedFrom(file[..last], now, dflt, d);
    }
  }

  /** Entry `j` is the last one for its device. */
  ghost predicate LastFor(file: seq<Peer>, j: nat) {
    j < |file| && forall k | j < k < |file| :: file[k].device != file[j].device
  }

  /** A live entry that is the last one for its device is loaded. */
  lemma {:induction false} LiveEntryIsLoaded(file: seq<Peer>, now: u64, dflt: u64, i: nat)
    requires LastFor(file, i) && file[i].expires > now
    ensures var l := Load(file, now, dflt).peers;
            file[i].device in l && l[file[i].device] == file[i]
  {
    var last := |file| - 1;
    if i < last {
      assert file[..last][i] == file[i];
      LiveEntryIsLoaded(file[..last], now, dflt, i);
    }
  }

  lemma ListedOnce(file: seq<Peer>, peers: Peers, i: nat)
    requires Lists(file, peers) && i < |file|
    ensures LastFor(file, i)
  {
    forall k | i < k < |file| ensures file[k].device != file[i].device {
      BelowIsTotal(file[i].device, file[k].device);
    }
  }

  /**
   Reloading a file written from `peers` gives back exactly the live ones at that instant,
   if and only if no peer carries the zero expiry, which the registry and the loader read differently.
   */
  lemma ReloadAgreesIff(file: seq<Peer>, peers: Peers, now: u64, dflt: u64)
    requires Keyed(peers) && Lists(file, peers)
    ensures Load(file, now, dflt).peers == Live(peers, now) <==> forall d | d in peers :: peers[d].expires != 0
  {
    var l := Load(file, now, dflt).peers;
    forall d | d in l ensures d in peers && l[d] == if peers[d].expires == 0 then peers[d].(expires := dflt) else peers[d] {
      var i := LoadedFrom(file, now, dflt, d);
    }
    if forall d | d in peers :: peers[d].expires != 0 {
      forall d | d in peers && IsLive(peers[d], now) ensures d in l && l[d] == peers[d] {
        var i: nat :| i < |file| && file[i] == peers[d];
        ListedOnce(file, peers, i);
        LiveEntryIsLoaded(file, now, dflt, i);
      }
      forall d | d in l ensures d in peers && IsLive(peers[d], now) {
        var i := LoadedFrom(file, now, dflt, d);
      }
      assert l == Live(peers, now);
    } else {
      var d :| d in peers && peers[d].expires == 0;
      assert d in Live(peers, now);
      if d in l {
        var i := LoadedFrom(file, now, dflt, d);
        assert l[d].expires > 0;
      }
    }
  }

  /** The one way to a zero expiry: a zero lease at the epoch. */
  lemma ZeroExpiryIff(now: u64, lease: u64)
    ensures Expiry(now, lease) == 0 <==> now == 0 && lease == 0
  {
  }

  // ---- Reading a file later -------------------------------------------------

  /** No entry outlives the last one for its device. A file the registry wrote has only one each. */
  ghost predicate LastOutlives(file: seq<Peer>) {
    forall i, j: nat | 0 <= i < j && LastFor(file, j) && file[i].device == file[j].device :: file[i].expires <= file[j].expires
  }

  lemma LastIndexFor(file: seq<Peer>, i: nat) returns (j: nat)
    requires i < |file|
    ensures i <= j && LastFor(file, j) && file[j].device == file[i].device
  {
    j := i;
    var k := i + 1;
    while k < |file|
      invariant i <= j < k <= |file| && file[j].device == file[i].device
      invariant forall m | j < m < k :: file[m].device != file[i].device
    {
      if file[k].device == file[i].device {
        j := k;
      }
      k := k + 1;
    }
  }

  /** What is loaded for a device is its last entry. */
  lemma LoadedIsLast(file: seq<Peer>, now: u64, d: string) returns (j: nat)
    requires NoZero(file) && LastOutlives(file) && d in Load(file, now, 0).peers
    ensures LastFor(file, j) && file[j].device == d && file[j].expires > now && Load(file, now, 0).peers[d] == file[j]
  {
    var i := LoadedFrom(file, now, 0, d);
    j := LastIndexFor(file, i);
    LiveEntryIsLoaded(file, now, 0, j);
  }

  /** What is loaded later is what was loaded earlier, less what lapsed in between. */
  lemma LoadLater(file: seq<Peer>, now: u64, later: u64, d: string)
    requires now <= later && NoZero(file) && LastOutlives(file)
    ensures var a, b := Load(file, now, 0).peers, Load(file, later, 0).peers;
            && (d in b <==> d in a && a[d].expires > later)
            && (d in b ==> b[d] == a[d])
  {
    if d in Load(file, later, 0).peers {
      var j := LoadedIsLast(file, later, d);
      LiveEntryIsLoaded(file, now, 0, j);
    }
    if d in Load(file, now, 0).peers && Load(file, now, 0).peers[d].expires > later {
      var j := LoadedIsLast(file, now, d);
      LiveEntryIsLoaded(file, later, 0, j);
    }
  }

  lemma {:induction false} LiveMeansLoaded(file: seq<Peer>, now: u64, i: nat)
    requires i < |file| && file[i].expires > now
    ensures file[i].device in Load(file, now, 0).peers
  {
    if i < |file| - 1 {
      assert file[..|file| - 1][i] == file[i];
      LiveMeansLoaded(file[..|file| - 1], now, i);
    }
  }

  /**
   Loading a file at every later instant gives what was loaded now less what has lapsed, exactly when no entry
   outlives the last one for its device: otherwise the earlier entry comes back when the last one lapses.
   */
  lemma ReloadsAgreeForeverIff(file: seq<Peer>, now: u64)
    requires NoZero(file) && forall i | 0 <= i < |file| :: file[i].expires > now
    ensures (forall t: u64 | t >= now :: Load(file, t, 0).peers == Live(Load(file, now, 0).peers, t)) <==> LastOutlives(file)
  {
    var peers := Load(file, now, 0).peers;
    if LastOutlives(file) {
      forall t: u64 | t >= now ensures Load(file, t, 0).peers == Live(peers, t) {
        LoadedIsLive(file, now, t);
      }
    } else {
      var i, j: nat :| 0 <= i < j && LastFor(file, j) && file[i].device == file[j].device && file[i].expires > file[j].expires;
      var t := file[j].expires;
      LiveEntryIsLoaded(file, now, 0, j);
      LiveMeansLoaded(file, t, i);
      assert file[j].device in Load(file, t, 0).peers && file[j].device !in Live(peers, t);
    }
  }

  lemma LoadedIsLive(file: seq<Peer>, now: u64, t: u64)
    requires now <= t && NoZero(file) && LastOutlives(file)
    ensures Load(file, t, 0).peers == Live(Load(file, now, 0).peers, t)
  {
    var a, b := Load(file, now, 0).peers, Load(file, t, 0).peers;
    forall d ensures d in b <==> d in a && a[d].expires > t
             ensures d in b ==> b[d] == a[d]
    {
      LoadLater(file, now, t, d);
    }
    forall d | d in a ensures a[d].expires != 0 {
      var j := LoadedIsLast(file, now, d);
    }
    assert b == Live(a, t);
  }

  // ---- Every operation keeps the file and the addresses right ---------------

  ghost predicate NoneZero(peers: Peers) {
    forall d | d in peers :: peers[d].expires != 0
  }

  /** At instant `t` and from then on, a restart would bring back exactly the live peers. */
  ghost predicate InStep(s: Registry, t: u64) {
    && Keyed(s.peers) && NoneZero(s.peers)
    && NoZero(s.file) && LastOutlives(s.file)
    && Load(s.file, t, 0).peers == Live(s.peers, t)
  }

  /** A registration that grants the zero expiry: a zero lease at clock zero, to a device that is given one. */
  ghost predicate GrantsZero(s: Registry, e: Event) {
    && e.Register? && Expiry(e.later, e.lease) == 0
    && (e.device in Live(s.peers, e.now) || !Exhausted(Live(s.peers, e.now)))
  }

  lemma WrittenIsInStep(s: Registry, t: u64)
    requires Keyed(s.peers) && Lists(s.file, s.peers) && NoneZero(s.peers)
    ensures InStep(s, t)
  {
    ReloadAgreesIff(s.file, s.peers, t, 0);
    forall i: nat | i < |s.file| ensures LastFor(s.file, i) {
      ListedOnce(s.file, s.peers, i);
    }
  }

  /** In step now is in step at any later instant: a restart is a prune. */
  lemma StaysInStep(s: Registry, t: u64, now: u64)
    requires InStep(s, t) && t <= now
    ensures InStep(s, now)
  {
    LoadedIsLive(s.file, t, now);
    assert Live(Live(s.peers, t), now) == Live(s.peers, now);
  }

  lemma RestartIsPrune(s: Registry, t: u64, e: Event, r: Registry)
    requires InStep(s, t) && e.Restart? && t <= e.now && Next(s, e, r)
    ensures r.peers == Live(s.peers, e.now)
  {
    StaysInStep(s, t, e.now);
    DefaultIsUnused(s.file, e.now, Expiry(e.later, e.lease), 0);
  }

  /** A start on a file of any contents is in step exactly if the file was rewritten or no entry outlives the last for its device. */
  lemma StartIsInStepIff(s: Registry, e: Event, r: Registry)
    requires e.Restart? && Next(s, e, r)
    ensures InStep(r, e.now) <==> Load(s.file, e.now, Expiry(e.later, e.lease)).normalized || LastOutlives(s.file)
  {
    var dflt := Expiry(e.later, e.lease);
    var l := Load(s.file, e.now, dflt);
    LoadIsKeyed(s.file, e.now, dflt);
    forall d | d in l.peers ensures l.peers[d].expires > e.now {
      var i := LoadedFrom(s.file, e.now, dflt, d);
    }
    if l.normalized {
      WrittenIsInStep(r, e.now);
    } else {
      AllLoaded(s.file, e.now, dflt);
      DefaultIsUnused(s.file, e.now, dflt, 0);
      assert Live(r.peers, e.now) == r.peers;
    }
  }

  lemma {:induction false} AllLoaded(file: seq<Peer>, now: u64, dflt: u64)
    requires !Load(file, now, dflt).normalized
    ensures NoZero(file) && forall i | 0 <= i < |file| :: file[i].expires > now
  {
    if file != [] {
      AllLoaded(file[..|file| - 1], now, dflt);
    }
  }

  /** After an operation, reloading the file gives the live peers, at that instant and later, exactly unless it granted the zero expiry. */
  lemma NextStaysInStepIff(s: Registry, t: u64, e: Event, r: Registry)
    requires InStep(s, t) && t <= e.now && Next(s, e, r)
    ensures InStep(r, e.now) <==> !GrantsZero(s, e)
  {
    StaysInStep(s, t, e.now);
    if GrantsZero(s, e) {
      ZeroIsGranted(s, e, r);
    } else {
      if e.Restart? {
        RestartIsPrune(s, t, e, r);
      }
      if Lists(r.file, r.peers) {
        NextAvoidsZero(s, t, e, r);
        WrittenIsInStep(r, e.now);
      }
    }
  }

  lemma ZeroIsGranted(s: Registry, e: Event, r: Registry)
    requires GrantsZero(s, e) && Next(s, e, r)
    ensures e.device in r.peers && r.peers[e.device].expires == 0
  {
    var live := Live(s.peers, e.now);
    if e.device !in live {
      var octet :| Enrolled(live, s.nextOctet, Peer(e.device, e.wgKey, [100, 64, 1, octet], 0), r);
    }
  }

  /** The zero expiry is no formality: from then on no restart, with whatever lease, finds the peers the registry has. */
  lemma ZeroGrantBreaksReload(s: Registry, t: u64, e: Event, r: Registry, dflt: u64)
    requires InStep(s, t) && t <= e.now && Next(s, e, r) && GrantsZero(s, e)
    ensures Load(r.file, e.now, dflt).peers != Live(r.peers, e.now)
  {
    ZeroIsGranted(s, e, r);
    assert r.peers != s.peers;
    RegisterKeepsKeys(s, e, r);
    ReloadAgreesIff(r.file, r.peers, e.now, dflt);
  }

  lemma RegisterKeepsKeys(s: Registry, e: Event, r: Registry)
    requires Keyed(s.peers) && e.Register? && Next(s, e, r)
    ensures Keyed(r.peers)
  {
  }

  /** A registration with a zero lease at clock zero, as the registry itself carries it out. */
  method ZeroLeaseRun(device: string, wgKey: string) returns (registry: WireGuardPeerRegistry)
    ensures device in registry.peers && registry.peers[device].expires == 0
    ensures forall dflt :: Load(registry.file, 0, dflt).peers != Live(registry.peers, 0)
  {
    registry := new WireGuardPeerRegistry.Load(0, 0, 0, Registry(map[], 1, []), []);
    ghost var s, e := registry.View(), Register(device, wgKey, 0, 0, 0);
    var _ := registry.RegisterPeerLease(device, wgKey, 0, 0);
    FreshRegistry(0);
    assert s == Registry(map[], 1, []);
    assert !InUse(Live(s.peers, 0), 1);
    ZeroIsGranted(s, e, registry.View());
    forall dflt ensures Load(registry.file, 0, dflt).peers != Live(registry.peers, 0) {
      ZeroGrantBreaksReload(s, 0, e, registry.View(), dflt);
    }
  }

  lemma NextAvoidsZero(s: Registry, t: u64, e: Event, r: Registry)
    requires InStep(s, t) && t <= e.now && !GrantsZero(s, e) && Next(s, e, r)
    ensures Keyed(r.peers) && NoneZero(r.peers)
  {
    if e.Restart? {
      RestartIsPrune(s, t, e, r);
    }
  }

  /** Addresses stay distinct host addresses, and the cursor stays on one. */
  lemma NextStaysSound(s: Registry, t: u64, e: Event, r: Registry)
    requires e.Restart? ==> InStep(s, t) && t <= e.now
    requires Next(s, e, r) && Sound(s.peers) && 1 <= s.nextOctet <= HOSTS
    ensures Sound(r.peers) && 1 <= r.nextOctet <= HOSTS
  {
    match e
    case Prune(now) =>
      LiveIsSound(s.peers, now);
    case Restart(now, _, _) =>
      LiveIsSound(s.peers, now);
      RestartIsPrune(s, t, e, r);
    case Register(_, _, _, _, _) =>
      RegisterStaysSound(s, e, r);
  }

  lemma RegisterStaysSound(s: Registry, e: Event, r: Registry)
    requires e.Register? && Next(s, e, r) && Sound(s.peers) && 1 <= s.nextOctet <= HOSTS
    ensures Sound(r.peers) && 1 <= r.nextOctet <= HOSTS
  {
    var live, expires := Live(s.peers, e.now), Expiry(e.later, e.lease);
    LiveIsSound(s.peers, e.now);
    if e.device in live {
      PutIsSound(live, e.device, r.peers[e.device]);
    } else if !Exhausted(live) {
      var octet :| Enrolled(live, s.nextOctet, Peer(e.device, e.wgKey, [100, 64, 1, octet], expires), r);
      PutIsSound(live, e.device, Peer(e.device, e.wgKey, [100, 64, 1, octet], expires));
    }
  }

  lemma LiveIsSound(peers: Peers, now: u64)
    requires Sound(peers)
    ensures Sound(Live(peers, now))
  {
  }

  lemma PutIsSound(peers: Peers, device: string, p: Peer)
    requires Sound(peers) && p.device == device && 1 <= p.ip[3] <= HOSTS
    requires !InUse(peers, p.ip[3]) || (device in peers && peers[device].ip[3] == p.ip[3])
    ensures Sound(peers[device := p])
  {
  }

  /** A device whose lease has not lapsed keeps its address; only its own registration moves the lease. */
  lemma NextKeepsAddress(s: Registry, t: u64, e: Event, r: Registry, device: string)
    requires e.Restart? ==> InStep(s, t) && t <= e.now
    requires Next(s, e, r) && device in s.peers && s.peers[device].expires > e.now
    ensures device in r.peers && r.peers[device].ip == s.peers[device].ip
    ensures r.peers[device].expires == if e.Register? && e.device == device then Expiry(e.later, e.lease) else s.peers[device].expires
  {
    assert device in Live(s.peers, e.now);
    if e.Restart? {
      RestartIsPrune(s, t, e, r);
    }
  }

  // ---- Whole runs -----------------------------------------------------------

  /** States `trace[0], trace[1], ..` linked by `events`, under a clock that never goes back. */
  ghost predicate IsRun(trace: seq<Registry>, events: seq<Event>, t: u64) {
    && |trace| == |events| + 1
    && (forall i | 0 <= i < |events| :: Next(trace[i], events[i], trace[i + 1]) && !GrantsZero(trace[i], events[i]))
    && (forall i | 0 <= i < |events| :: t <= events[i].now)
    && (forall i, j | 0 <= i < j < |events| :: events[i].now <= events[j].now)
  }

  function Clock(events: seq<Event>, t: u64): (r: u64) {
    if events == [] then t else events[|events| - 1].now
  }

  lemma RunPrefix(trace: seq<Registry>, events: seq<Event>, t: u64)
    requires IsRun(trace, events, t) && events != []
    ensures IsRun(trace[..|events|], events[..|events| - 1], t)
    ensures Clock(events[..|events| - 1], t) <= events[|events| - 1].now
  {
  }

  /**
   Any number of registrations, prunes and restarts: the file always agrees with the live peers
   at the instant of the last operation, and addresses are always distinct and in range.
   */
  lemma {:induction false} EveryRunStaysSound(trace: seq<Registry>, events: seq<Event>, t: u64)
    requires IsRun(trace, events, t) && InStep(trace[0], t)
    requires Sound(trace[0].peers) && 1 <= trace[0].nextOctet <= HOSTS
    ensures var s := trace[|events|];
            InStep(s, Clock(events, t)) && Sound(s.peers) && 1 <= s.nextOctet <= HOSTS
  {
    if events != [] {
      var n := |events| - 1;
      RunPrefix(trace, events, t);
      EveryRunStaysSound(trace[..|events|], events[..n], t);
      NextStaysInStepIff(trace[n], Clock(events[..n], t), events[n], trace[n + 1]);
      NextStaysSound(trace[n], Clock(events[..n], t), events[n], trace[n + 1]);
    }
  }

  /** The device's lease after the events: as given, or as its last registration set it. */
  function LeaseAfter(expires: u64, events: seq<Event>, device: string): (r: u64) {
    if events == [] then expires
    else
      var e := events[|events| - 1];
      if e.Register? && e.device == device then Expiry(e.later, e.lease)
      else LeaseAfter(expires, events[..|events| - 1], device)
  }

  /** At every event the device's lease, as it stands then, has not run out. */
  predicate NeverLapses(expires: u64, events: seq<Event>, device: string) {
    events == [] ||
    var earlier := events[..|events| - 1];
    NeverLapses(expires, earlier, device) && events[|events| - 1].now < LeaseAfter(expires, earlier, device)
  }

  /**
   A device that comes back before each lease runs out keeps its address, whatever keys it rotates
   to, whatever other devices do, and however often the server restarts.
   */
  lemma {:induction false} AddressIsKept(trace: seq<Registry>, events: seq<Event>, t: u64, device: string)
    requires IsRun(trace, events, t) && InStep(trace[0], t)
    requires Sound(trace[0].peers) && 1 <= trace[0].nextOctet <= HOSTS
    requires device in trace[0].peers
    requires NeverLapses(trace[0].peers[device].expires, events, device)
    ensures var p, q := trace[0].peers, trace[|events|].peers;
            && device in q && q[device].ip == p[device].ip
            && q[device].expires == LeaseAfter(p[device].expires, events, device)
  {
    if events != [] {
      var n := |events| - 1;
      var earlier := events[..n];
      RunPrefix(trace, events, t);
      AddressIsKept(trace[..|events|], earlier, t, device);
      EveryRunStaysSound(trace[..|events|], earlier, t);
      NextKeepsAddress(trace[n], Clock(earlier, t), events[n], trace[n + 1], device);
    }
  }

  /** A registry started on an empty file is where every such run can begin. */
  lemma FreshRegistry(t: u64)
    ensures var s := Registry(map[], 1, []);
            InStep(s, t) && Sound(s.peers)
  {
  }
}
