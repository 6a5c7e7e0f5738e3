/** The mDNS TXT records that advertise a peer, and reading them back. */
module PeerShare {
  import opened Octets
  import opened Wrappers

  datatype Advertisement = Advertisement(
    version: u16,
    deviceKey: string,
    serverKey: string,
    nonce: string,
    endpoint: string,
    fingerprint: string,
    capabilities: seq<string>)

  datatype TxtError = Missing(key: string) | BadVersion

  // ---- Decimal numbers ------------------------------------------------------

  function DigitChar(d: nat): (r: char)
    requires d < 10
  {
    (0x30 + d) as char
  }

  predicate IsDigit(c: char) {
    0x30 <= c as int <= 0x39
  }

  /** `u16::to_string`. */
  function Print(n: nat): (r: string)
    ensures r != [] && forall i | 0 <= i < |r| :: IsDigit(r[i])
  {
    if n < 10 then [DigitChar(n)] else Print(n / 10) + [DigitChar(n % 10)]
  }

  function ValueOf(digits: string): (r: nat)
    requires forall i | 0 <= i < |digits| :: IsDigit(digits[i])
  {
    if digits == [] then 0
    else
      assert IsDigit(digits[|digits| - 1]);
      10 * ValueOf(digits[..|digits| - 1]) + (digits[|digits| - 1] as int - 0x30)
  }

  /** `str::parse::<u16>`: an optional plus sign, then digits, leading zeros allowed. */
  function ParseU16(s: string): (r: Option<u16>) {
    var digits := if s != [] && s[0] == '+' then s[1..] else s;
    if digits == [] || exists i | 0 <= i < |digits| :: !IsDigit(digits[i]) then None
    else if ValueOf(digits) > 0xffff then None
    else Some(ValueOf(digits))
  }

  lemma {:induction false} ValueOfPrinted(n: nat)
    ensures ValueOf(Print(n)) == n
  {
    if n >= 10 {
      ValueOfPrinted(n / 10);
      var r := Print(n);
      assert r[..|r| - 1] == Print(n / 10);
    }
  }

  lemma ParsePrinted(n: u16)
    ensures ParseU16(Print(n)) == Some(n)
  {
    ValueOfPrinted(n);
    assert IsDigit(Print(n)[0]);
  }

  lemma ParsePlus(n: u16)
    ensures ParseU16("+" + Print(n)) == Some(n)
  {
    ValueOfPrinted(n);
    assert ("+" + Print(n))[1..] == Print(n);
  }

  // ---- Comma-separated lists ------------------------------------------------

  /** `join(",")`. */
  function Join(items: seq<string>): (r: string) {
    if items == [] then ""
    else if |items| == 1 then items[0]
    else items[0] + "," + Join(items[1..])
  }

  /** `split(',')`: the empty string has one empty piece. */
  function Split(s: string): (r: seq<string>)
    ensures r != [] && forall i | 0 <= i < |r| :: ',' !in r[i]
  {
    if s == "" then [""]
    else
      var rest := Split(s[1..]);
      if s[0] == ',' then [""] + rest else [[s[0]] + rest[0]] + rest[1..]
  }

  function NonEmpty(items: seq<string>): (r: seq<string>)
    ensures forall i | 0 <= i < |r| :: r[i] != "" && r[i] in items
  {
    if items == [] then []
    else (if items[0] == "" then [] else [items[0]]) + NonEmpty(items[1..])
  }

  lemma {:induction false} SplitPiece(piece: string, rest: string)
    requires ',' !in piece
    ensures Split(piece + "," + rest) == [piece] + Split(rest)
    ensures Split(piece) == [piece]
  {
    if piece == "" {
      assert piece + "," + rest == "," + rest;
      assert ("," + rest)[1..] == rest;
    } else {
      var s := piece + "," + rest;
      assert s[1..] == piece[1..] + "," + rest;
      SplitPiece(piece[1..], rest);
      assert [piece[0]] + piece[1..] == piece;
    }
  }

  /** The items `split` and `filter` can give back. */
  predicate Listable(items: seq<string>) {
    forall i | 0 <= i < |items| :: items[i] != "" && ',' !in items[i]
  }

  lemma {:induction false} SplitJoined(items: seq<string>)
    requires items != [] && forall i | 0 <= i < |items| :: ',' !in items[i]
    ensures Split(Join(items)) == items
  {
    if |items| == 1 {
      SplitPiece(items[0], "");
    } else {
      SplitPiece(items[0], Join(items[1..]));
      SplitJoined(items[1..]);
    }
  }

  lemma {:induction false} NonEmptyKeepsAll(items: seq<string>)
    requires forall i | 0 <= i < |items| :: items[i] != ""
    ensures NonEmpty(items) == items
  {
    if items != [] {
      NonEmptyKeepsAll(items[1..]);
    }
  }

  lemma ListRoundTripIff(items: seq<string>)
    ensures NonEmpty(Split(Join(items))) == items <==> Listable(items)
  {
    if Listable(items) {
      if items == [] {
        assert NonEmpty([""]) == NonEmpty([""][1..]);
      } else {
        SplitJoined(items);
        NonEmptyKeepsAll(items);
      }
    }
  }

  // ---- The records ----------------------------------------------------------

  function TxtRecords(a: Advertisement): (r: seq<(string, string)>) {
    [("version", Print(a.version)),
     ("device_key", a.deviceKey),
     ("server_key", a.serverKey),
     ("instance_nonce", a.nonce),
     ("endpoint", a.endpoint),
     ("cert_fingerprint", a.fingerprint),
     ("capabilities", Join(a.capabilities))]
  }

  /** The records as a map; a later record replaces an earlier one with its key. */
  function Collect(records: seq<(string, string)>): (r: map<string, string>) {
    if records == [] then map[]
    else Collect(records[..|records| - 1])[records[|records| - 1].0 := records[|records| - 1].1]
  }

  /** The first required key that is missing, in the order they are asked for. */
  function FirstMissing(records: map<string, string>, keys: seq<string>): (r: Option<string>)
    ensures r.None? <==> forall k | k in keys :: k in records
  {
    if keys == [] then None
    else if keys[0] !in records then Some(keys[0])
    else FirstMissing(records, keys[1..])
  }

  const LATER_KEYS := ["device_key", "server_key", "instance_nonce", "endpoint", "cert_fingerprint", "capabilities"]

  /** `from_txt_record_map`: the version is looked up and parsed before the other keys are asked for. */
  function FromTxtRecords(records: map<string, string>): (r: Result<Advertisement, TxtError>) {
    if "version" !in records then Err(Missing("version"))
    else
      var version := ParseU16(records["version"]);
      if version.None? then Err(BadVersion)
      else
        var missing := FirstMissing(records, LATER_KEYS);
        if missing.Some? then Err(Missing(missing.value))
        else
          assert forall i | 0 <= i < |LATER_KEYS| :: LATER_KEYS[i] in records;
          assert LATER_KEYS[0] in records && LATER_KEYS[1] in records && LATER_KEYS[2] in records;
          assert LATER_KEYS[3] in records && LATER_KEYS[4] in records && LATER_KEYS[5] in records;
          Ok(Advertisement(version.value, records["device_key"], records["server_key"], records["instance_nonce"],
                           records["endpoint"], records["cert_fingerprint"], NonEmpty(Split(records["capabilities"]))))
  }

  /** Records parse exactly if every key is there and the version is a number; otherwise the first thing amiss is named. */
  lemma ParsesIff(records: map<string, string>)
    ensures FromTxtRecords(records).Ok? <==>
              && (forall k | k in ["version"] + LATER_KEYS :: k in records)
              && ParseU16(records["version"]).Some?
    ensures FromTxtRecords(records) == Err(Missing("version")) <==> "version" !in records
    ensures FromTxtRecords(records) == Err(BadVersion) <==> "version" in records && ParseU16(records["version"]).None?
    ensures forall k | k != "version" && FromTxtRecords(records) == Err(Missing(k)) :: k in LATER_KEYS && k !in records
  {
    var keys := ["version"] + LATER_KEYS;
    assert keys[0] == "version" && forall i | 0 <= i < |LATER_KEYS| :: keys[i + 1] == LATER_KEYS[i];
    FirstMissingIs(records, LATER_KEYS);
  }

  lemma {:induction false} FirstMissingIs(records: map<string, string>, keys: seq<string>)
    ensures var r := FirstMissing(records, keys);
            r.Some? ==> exists i :: 0 <= i < |keys| && keys[i] == r.value && r.value !in records && forall j | 0 <= j < i :: keys[j] in records
  {
    if keys != [] && keys[0] in records {
      FirstMissingIs(records, keys[1..]);
      var r := FirstMissing(records, keys);
      if r.Some? {
        var i :| 0 <= i < |keys[1..]| && keys[1..][i] == r.value && r.value !in records
                 && forall j | 0 <= j < i :: keys[1..][j] in records;
        assert keys[i + 1] == r.value && forall j | 0 < j < i + 1 :: keys[j] == keys[1..][j - 1];
      }
    }
  }

  lemma CollectOneMore(records: seq<(string, string)>, key: string, value: string)
    ensures Collect(records + [(key, value)]) == Collect(records)[key := value]
  {
  }

  ghost function AsMap(a: Advertisement): (r: map<string, string>) {
    map["version" := Print(a.version), "device_key" := a.deviceKey, "server_key" := a.serverKey, "instance_nonce" := a.nonce,
        "endpoint" := a.endpoint, "cert_fingerprint" := a.fingerprint, "capabilities" := Join(a.capabilities)]
  }

  lemma CollectedRecords(a: Advertisement)
    ensures Collect(TxtRecords(a)) == AsMap(a)
  {
    CollectOneMore([], "version", Print(a.version));
    var r := [] + [("version", Print(a.version))];
    CollectOneMore(r, "device_key", a.deviceKey);
    r := r + [("device_key", a.deviceKey)];
    CollectOneMore(r, "server_key", a.serverKey);
    r := r + [("server_key", a.serverKey)];
    CollectOneMore(r, "instance_nonce", a.nonce);
    r := r + [("instance_nonce", a.nonce)];
    CollectOneMore(r, "endpoint", a.endpoint);
    r := r + [("endpoint", a.endpoint)];
    CollectOneMore(r, "cert_fingerprint", a.fingerprint);
    r := r + [("cert_fingerprint", a.fingerprint)];
    CollectOneMore(r, "capabilities", Join(a.capabilities));
    assert r + [("capabilities", Join(a.capabilities))] == TxtRecords(a);
  }

  /** Reading printed records gives the advertisement back exactly when every capability is non-empty and has no comma. */
  lemma AdvertisementRoundTripIff(a: Advertisement)
    ensures FromTxtRecords(Collect(TxtRecords(a))) == Ok(a) <==> Listable(a.capabilities)
    ensures FromTxtRecords(Collect(TxtRecords(a))).Ok?
  {
    CollectedRecords(a);
    ParsedMap(a);
    ListRoundTripIff(a.capabilities);
  }

  lemma ParsedMap(a: Advertisement)
    ensures FromTxtRecords(AsMap(a)) == Ok(a.(capabilities := NonEmpty(Split(Join(a.capabilities)))))
  {
    ParsePrinted(a.version);
    AllThere(a);
  }

  lemma AllThere(a: Advertisement)
    ensures FirstMissing(AsMap(a), LATER_KEYS) == None
  {
    assert forall k | k in LATER_KEYS :: k in AsMap(a);
  }
}
