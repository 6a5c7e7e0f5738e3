/**
 Admission of client devices: a key already authorised, or an invite redeemed to authorise it,
 followed by a signed challenge. Signature checks and file faults are inputs; a missing file
 reads as an empty one.
 */
module Admission {
  import opened Octets
  import opened Wrappers

  datatype Token = Token(value: string, expiresAt: string, uses: u32)

  datatype Device = Device(deviceId: string, publicKey: string, addedAt: Option<string>)

  type Tokens = map<string, Token>

  datatype TokenError = NotFound | TokenExhausted

  // ---- Invite tokens --------------------------------------------------------

  /** `InviteTokenManager::from_tokens`: a later entry replaces an earlier one with its value. */
  function FromTokens(list: seq<Token>): (r: Tokens) {
    if list == [] then map[]
    else FromTokens(list[..|list| - 1])[list[|list| - 1].value := list[|list| - 1]]
  }

  ghost predicate Keyed(tokens: Tokens) {
    forall v | v in tokens :: tokens[v].value == v
  }

  lemma {:induction false} FromTokensIsKeyed(list: seq<Token>)
    ensures Keyed(FromTokens(list))
  {
    if list != [] {
      FromTokensIsKeyed(list[..|list| - 1]);
    }
  }

  /** Entry `i` is the last one with its value. */
  ghost predicate LastToken(list: seq<Token>, i: nat) {
    i < |list| && forall j | i < j < |list| :: list[j].value != list[i].value
  }

  lemma {:induction false} LastTokenIsKept(list: seq<Token>, i: nat)
    requires LastToken(list, i)
    ensures list[i].value in FromTokens(list) && FromTokens(list)[list[i].value] == list[i]
  {
    if i < |list| - 1 {
      LastTokenIsKept(list[..|list| - 1], i);
    }
  }

  lemma {:induction false} KeptIsLastToken(list: seq<Token>, v: string) returns (i: nat)
    requires v in FromTokens(list)
    ensures LastToken(list, i) && list[i].value == v
  {
    i := |list| - 1;
    if list[i].value != v {
      i := KeptIsLastToken(list[..i], v);
    }
  }

  predicate Redeemable(tokens: Tokens, value: string) {
    value in tokens && tokens[value].uses > 0
  }

  function Spent(tokens: Tokens, value: string): (r: Tokens)
    requires Redeemable(tokens, value)
  {
    tokens[value := tokens[value].(uses := tokens[value].uses - 1)]
  }

  class InviteTokenManager {
    var tokens: Tokens

    /** `from_tokens`: for every value in the list, the last entry with it is kept, and nothing else. */
    constructor (list: seq<Token>)
      ensures tokens == FromTokens(list)
      ensures forall i: nat | LastToken(list, i) :: list[i].value in tokens && tokens[list[i].value] == list[i]
      ensures forall v | v in tokens :: exists i: nat :: LastToken(list, i) && list[i].value == v
    {
      tokens := FromTokens(list);
      forall i: nat | LastToken(list, i) ensures list[i].value in FromTokens(list) && FromTokens(list)[list[i].value] == list[i] {
        LastTokenIsKept(list, i);
      }
      forall v | v in FromTokens(list) ensures exists i: nat :: LastToken(list, i) && list[i].value == v {
        var i := KeptIsLastToken(list, v);
      }
    }

    method Redeem(value: string) returns (r: Result<Token, TokenError>)
      modifies this
      ensures r.Ok? <==> Redeemable(old(tokens), value)
      ensures r.Ok? ==> tokens == Spent(old(tokens), value) && r.value == tokens[value]
      ensures r.Err? ==> tokens == old(tokens) && (r.error == NotFound <==> value !in tokens)
    {
      if value !in tokens {
        return Err(NotFound);
      }
      var token := tokens[value];
      if token.uses == 0 {
        return Err(TokenExhausted);
      }
      tokens := tokens[value := token.(uses := token.uses - 1)];
      r := Ok(tokens[value]);
    }

    /** `all_tokens`, as `persist_manager` writes them: reading the list back gives the same tokens. */
    method AllTokens() returns (list: seq<Token>)
      requires Keyed(tokens)
      ensures FromTokens(list) == tokens
    {
      list := [];
      var left := tokens.Keys;
      while left != {}
        invariant left <= tokens.Keys
        invariant FromTokens(list) == map v | v in tokens && v !in left :: tokens[v]
        decreases left
      {
        var v :| v in left;
        assert (list + [tokens[v]])[..|list|] == list;
        list := list + [tokens[v]];
        left := left - {v};
      }
    }
  }

  // ---- The admission books --------------------------------------------------

  function KeysOf(devices: seq<Device>): (r: set<string>) {
    set d | d in devices :: d.publicKey
  }

  /** `load_devices_map`. */
  function DeviceMap(devices: seq<Device>): (r: map<string, Device>) {
    if devices == [] then map[]
    else DeviceMap(devices[..|devices| - 1])[devices[|devices| - 1].publicKey := devices[|devices| - 1]]
  }

  lemma {:induction false} DeviceMapKeys(devices: seq<Device>)
    ensures DeviceMap(devices).Keys == KeysOf(devices)
  {
    if devices != [] {
      var n := |devices| - 1;
      DeviceMapKeys(devices[..n]);
      assert devices == devices[..n] + [devices[n]];
    }
  }

  /** Device `i` is the last on file with its key. */
  ghost predicate LastDevice(devices: seq<Device>, i: nat) {
    i < |devices| && forall j | i < j < |devices| :: devices[j].publicKey != devices[i].publicKey
  }

  lemma {:induction false} LastDeviceIsKept(devices: seq<Device>, i: nat)
    requires LastDevice(devices, i)
    ensures devices[i].publicKey in DeviceMap(devices) && DeviceMap(devices)[devices[i].publicKey] == devices[i]
  {
    if i < |devices| - 1 {
      LastDeviceIsKept(devices[..|devices| - 1], i);
    }
  }

  /** What the files and the store hold: tokens on file, devices on file, and the in-memory store. */
  datatype Books = Books(tokens: Tokens, devices: seq<Device>, store: map<string, Device>)

  ghost predicate InSync(b: Books) {
    b.store == DeviceMap(b.devices)
  }

  /** Unicode white space, as `str::trim` removes it. */
  predicate IsWhitespace(c: char) {
    var n := c as int;
    || 9 <= n <= 13 || n == 0x20 || n == 0x85 || n == 0xa0 || n == 0x1680
    || 0x2000 <= n <= 0x200a || n == 0x2028 || n == 0x2029 || n == 0x202f || n == 0x205f || n == 0x3000
  }

  predicate Blank(s: string) {
    forall i | 0 <= i < |s| :: IsWhitespace(s[i])
  }

  function NewDevice(publicKey: string): (r: Device)
    ensures r.publicKey == publicKey && |r.deviceId| <= 15 && "device-" <= r.deviceId && r.deviceId[7..] <= publicKey
  {
    Device("device-" + (if |publicKey| > 8 then publicKey[..8] else publicKey), publicKey, None)
  }

  /** Which file operation fails, if the handshake gets that far. */
  datatype Faults = Faults(tokenFile: bool, keyFile: bool, reload: bool)

  datatype Attempt = Attempt(publicKey: string, inviteToken: string, proofHolds: bool, faults: Faults)

  datatype Outcome = Accepted(publicKey: string) | Unauthorized | BadProof | IoError

  datatype Settled = Settled(books: Books, outcome: Outcome)

  function Proven(a: Attempt): (r: Outcome) {
    if a.proofHolds then Accepted(a.publicKey) else BadProof
  }

  /** The handshake takes a use off an invite. */
  predicate Redeems(b: Books, a: Attempt) {
    a.publicKey !in b.store && !Blank(a.inviteToken) && !a.faults.tokenFile && Redeemable(b.tokens, a.inviteToken)
  }

  function WithDevice(devices: seq<Device>, publicKey: string): (r: seq<Device>) {
    if publicKey in KeysOf(devices) then devices else devices + [NewDevice(publicKey)]
  }

  /** One handshake's effect on the books, and its outcome. */
  function Handshake(b: Books, a: Attempt): (r: Settled) {
    if a.publicKey in b.store then Settled(b, Proven(a))
    else if !Redeems(b, a) then Settled(b, if !Blank(a.inviteToken) && a.faults.tokenFile then IoError else Unauthorized)
    else
      var spent := b.(tokens := Spent(b.tokens, a.inviteToken));
      if a.faults.keyFile then Settled(spent, IoError)
      else
        var added := spent.(devices := WithDevice(b.devices, a.publicKey));
        if a.faults.reload then Settled(added, IoError)
        else Settled(added.(store := DeviceMap(added.devices)), Proven(a))
  }

  class AdmissionServer {
    var tokenFile: seq<Token>
    var keyFile: seq<Device>
    var store: map<string, Device>

    ghost function View(): (r: Books)
      reads this
    {
      Books(FromTokens(tokenFile), keyFile, store)
    }

    /** `AuthorizedKeysStore::load` on existing files. */
    constructor (tokenFile: seq<Token>, keyFile: seq<Device>)
      ensures View() == Books(FromTokens(tokenFile), keyFile, DeviceMap(keyFile)) && InSync(View())
    {
      this.tokenFile, this.keyFile := tokenFile, keyFile;
      store := DeviceMap(keyFile);
    }

    /** `redeem_invite_token`; the error is a file fault. */
    method RedeemInviteToken(value: string, fault: bool) returns (r: Result<bool, ()>)
      modifies this`tokenFile
      ensures r == if fault then Err(()) else Ok(Redeemable(old(View()).tokens, value))
      ensures View().tokens == if r == Ok(true) then Spent(old(View()).tokens, value) else old(View()).tokens
    {
      if fault {
        return Err(());
      }
      var manager := new InviteTokenManager(tokenFile);
      var redeemed := manager.Redeem(value);
      if redeemed.Ok? {
        FromTokensIsKeyed(tokenFile);
        tokenFile := manager.AllTokens();
      }
      r := Ok(redeemed.Ok?);
    }

    /** `authorize_device_key`; says whether the key was new. */
    method AuthorizeDeviceKey(publicKey: string, fault: bool) returns (r: Result<bool, ()>)
      modifies this`keyFile
      ensures r == if fault then Err(()) else Ok(publicKey !in KeysOf(old(keyFile)))
      ensures keyFile == if fault then old(keyFile) else WithDevice(old(keyFile), publicKey)
    {
      if fault {
        return Err(());
      }
      if exists d | d in keyFile :: d.publicKey == publicKey {
        return Ok(false);
      }
      keyFile := keyFile + [NewDevice(publicKey)];
      r := Ok(true);
    }

    /** After a reload exactly the keys on file are authorised, each as the last device on file with it. */
    method Reload(fault: bool) returns (ok: bool)
      modifies this`store
      ensures ok <==> !fault
      ensures ok ==> InSync(View()) && store.Keys == KeysOf(keyFile)
      ensures ok ==> forall i: nat | LastDevice(keyFile, i) ::
                keyFile[i].publicKey in store && store[keyFile[i].publicKey] == keyFile[i]
      ensures !ok ==> store == old(store)
    {
      if fault {
        return false;
      }
      store := DeviceMap(keyFile);
      DeviceMapKeys(keyFile);
      forall i: nat | LastDevice(keyFile, i) ensures keyFile[i].publicKey in store && store[keyFile[i].publicKey] == keyFile[i] {
        LastDeviceIsKept(keyFile, i);
      }
      ok := true;
    }

    method PerformAuthHandshake(a: Attempt) returns (outcome: Outcome)
      modifies this
      ensures Settled(View(), outcome) == Handshake(old(View()), a)
    {
      if a.publicKey !in store {
        var redeemed: Result<bool, ()> := Ok(false);
        if !Blank(a.inviteToken) {
          redeemed := RedeemInviteToken(a.inviteToken, a.faults.tokenFile);
        }
        if redeemed.Err? {
          return IoError;
        }
        if !redeemed.value {
          return Unauthorized;
        }
        var added := AuthorizeDeviceKey(a.publicKey, a.faults.keyFile);
        if added.Err? {
          return IoError;
        }
        var reloaded := Reload(a.faults.reload);
        if !reloaded {
          return IoError;
        }
      }
      outcome := Proven(a);
    }
  }

  // ---- Conservation ---------------------------------------------------------

  ghost function TotalUses(tokens: Tokens): (r: nat)
    decreases |tokens|
  {
    if tokens == map[] then 0
    else
      var v :| v in tokens;
      assert tokens.Keys == (tokens - {v}).Keys + {v};
      tokens[v].uses + TotalUses(tokens - {v})
  }

  lemma {:induction false} TotalUsesWithout(tokens: Tokens, v: string)
    requires v in tokens
    ensures TotalUses(tokens) == tokens[v].uses + TotalUses(tokens - {v})
    decreases |tokens|
  {
    var w :| w in tokens && TotalUses(tokens) == tokens[w].uses + TotalUses(tokens - {w});
    if w != v {
      assert tokens.Keys == (tokens - {w}).Keys + {w} == (tokens - {v}).Keys + {v};
      TotalUsesWithout(tokens - {w}, v);
      TotalUsesWithout(tokens - {v}, w);
      assert tokens - {w} - {v} == tokens - {v} - {w};
    }
  }

  lemma SpendingTakesOne(tokens: Tokens, v: string)
    requires Redeemable(tokens, v)
    ensures TotalUses(Spent(tokens, v)) == TotalUses(tokens) - 1
  {
    TotalUsesWithout(tokens, v);
    TotalUsesWithout(Spent(tokens, v), v);
    assert Spent(tokens, v) - {v} == tokens - {v};
  }

  /** Authorised devices on file plus invite uses on file. */
  ghost function Balance(b: Books): (r: nat) {
    |KeysOf(b.devices)| + TotalUses(b.tokens)
  }

  lemma AuthorisingAddsOne(devices: seq<Device>, publicKey: string)
    ensures |KeysOf(WithDevice(devices, publicKey))| == |KeysOf(devices)| + if publicKey in KeysOf(devices) then 0 else 1
    ensures KeysOf(WithDevice(devices, publicKey)) == KeysOf(devices) + {publicKey}
  {
    if publicKey !in KeysOf(devices) {
      var more := devices + [NewDevice(publicKey)];
      assert KeysOf(more) == KeysOf(devices) + {publicKey} by {
        assert more[|devices|] in more;
      }
    }
  }

  /** The handshake spends an invite use and no device comes of it. */
  predicate Wastes(b: Books, a: Attempt) {
    Redeems(b, a) && (a.faults.keyFile || a.publicKey in KeysOf(b.devices))
  }

  /**
   A handshake leaves the balance as it was unless it redeems an invite and no device comes of it:
   the key file could not be written, or the key was on file already and the store did not know.
   It never makes the balance larger.
   */
  lemma BalanceKeptIff(b: Books, a: Attempt)
    ensures var r := Handshake(b, a).books;
            && Balance(r) <= Balance(b)
            && (Balance(r) == Balance(b) <==> !Wastes(b, a))
  {
    if Redeems(b, a) {
      SpendingTakesOne(b.tokens, a.inviteToken);
      AuthorisingAddsOne(b.devices, a.publicKey);
    }
  }

  /** Store and key file stay equal unless the reload after a new authorisation fails. */
  lemma SyncKeptIff(b: Books, a: Attempt)
    requires InSync(b)
    ensures InSync(Handshake(b, a).books) <==> !(Redeems(b, a) && !a.faults.keyFile && a.faults.reload)
  {
    if Redeems(b, a) && !a.faults.keyFile {
      NewKeyIsMapped(b.devices, a.publicKey);
    }
  }

  lemma NewKeyIsMapped(devices: seq<Device>, publicKey: string)
    ensures publicKey in DeviceMap(WithDevice(devices, publicKey))
  {
    DeviceMapKeys(WithDevice(devices, publicKey));
    AuthorisingAddsOne(devices, publicKey);
    assert publicKey in DeviceMap(WithDevice(devices, publicKey)).Keys;
  }

  /** A handshake succeeds only with a valid proof, for a key that is then in the store, and that was so before or spent an invite. */
  lemma SuccessNeedsStore(b: Books, a: Attempt)
    ensures var r := Handshake(b, a);
            r.outcome.Accepted? ==>
              && a.proofHolds && r.outcome.publicKey == a.publicKey && a.publicKey in r.books.store
              && (a.publicKey in b.store || Redeems(b, a))
  {
    if Redeems(b, a) {
      NewKeyIsMapped(b.devices, a.publicKey);
    }
  }

  /** A handshake succeeds exactly if the proof holds and the key was in the store or was admitted by an invite without a fault. */
  lemma SuccessIff(b: Books, a: Attempt)
    ensures Handshake(b, a).outcome == Accepted(a.publicKey)
            <==> a.proofHolds && (a.publicKey in b.store || (Redeems(b, a) && !a.faults.keyFile && !a.faults.reload))
    ensures Redeems(b, a) <==>
              && a.publicKey !in b.store && !a.faults.tokenFile
              && (exists i :: 0 <= i < |a.inviteToken| && !IsWhitespace(a.inviteToken[i]))
              && a.inviteToken in b.tokens && b.tokens[a.inviteToken].uses > 0
  {
  }

  /** The books after a sequence of handshakes, one at a time. */
  function RunAll(b: Books, attempts: seq<Attempt>): (r: Books) {
    if attempts == [] then b
    else Handshake(RunAll(b, attempts[..|attempts| - 1]), attempts[|attempts| - 1]).books
  }

  /** No handshake of the run wastes a use. */
  ghost predicate Frugal(b: Books, attempts: seq<Attempt>) {
    attempts == [] ||
    var earlier := attempts[..|attempts| - 1];
    Frugal(b, earlier) && !Wastes(RunAll(b, earlier), attempts[|attempts| - 1])
  }

  /** Over a whole run, with any faults, the balance never grows, and is kept exactly when no use is wasted. */
  lemma {:induction false} RunBalanceKeptIff(b: Books, attempts: seq<Attempt>)
    ensures Balance(RunAll(b, attempts)) <= Balance(b)
    ensures Balance(RunAll(b, attempts)) == Balance(b) <==> Frugal(b, attempts)
  {
    if attempts != [] {
      var n := |attempts| - 1;
      RunBalanceKeptIff(b, attempts[..n]);
      BalanceKeptIff(RunAll(b, attempts[..n]), attempts[n]);
    }
  }

  /**
   Any sequence of handshakes, with any keys, tokens, proofs and unreadable token files, keeps the
   balance and the agreement of store and file, as long as the key file can be written and reread.
   */
  lemma {:induction false} AdmissionConserves(b: Books, attempts: seq<Attempt>)
    requires InSync(b)
    requires forall i | 0 <= i < |attempts| :: !attempts[i].faults.keyFile && !attempts[i].faults.reload
    ensures InSync(RunAll(b, attempts)) && Balance(RunAll(b, attempts)) == Balance(b)
  {
    if attempts != [] {
      var n := |attempts| - 1;
      AdmissionConserves(b, attempts[..n]);
      var before := RunAll(b, attempts[..n]);
      DeviceMapKeys(before.devices);
      BalanceKeptIff(before, attempts[n]);
      SyncKeptIff(before, attempts[n]);
    }
  }

  /** Whatever fails, no run admits more devices than invite uses were given up. */
  lemma InvitesBoundDevices(b: Books, attempts: seq<Attempt>)
    ensures var r := RunAll(b, attempts);
            |KeysOf(r.devices)| - |KeysOf(b.devices)| <= TotalUses(b.tokens) - TotalUses(r.tokens)
  {
    RunBalanceKeptIff(b, attempts);
  }
}
