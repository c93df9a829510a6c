/**
 * The decision rules of the NetworkManager Wi-Fi helpers: how an access
 * point's flag words become a security class, how the scan and the stored
 * connections become maps, which stored connection `connect_wifi` reuses
 * and how it edits that connection's settings. The D-Bus replies (access
 * points, connection settings) are parameters.
 */
module WifiTools {
  import opened Wrappers
  import Decimal

  type u8 = x: int | 0 <= x < 0x100
  type u32 = x: int | 0 <= x < 0x1_0000_0000
  type u64 = x: int | 0 <= x < 0x1_0000_0000_0000_0000

  datatype WifiSecurity = WifiSecOpen | WifiSecWep | WifiSecWpa | WifiSecWpa23

  /* ------------------------------------------------------------ the scan */

  /**
   * The security class of an access point: any RSN flag means WPA2/WPA3,
   * else any WPA flag means WPA, else the privacy bit (`flags & 0x01`)
   * means WEP, else the network is open.
   */
  function Classify(flags: u32, wpaFlags: u32, rsnFlags: u32): WifiSecurity
  {
    if rsnFlags != 0 then WifiSecWpa23
    else if wpaFlags != 0 then WifiSecWpa
    else if flags % 2 == 1 then WifiSecWep
    else WifiSecOpen
  }

  /** Each class in terms of the flag words, both directions. */
  lemma ClassifyIff(flags: u32, wpaFlags: u32, rsnFlags: u32)
    ensures Classify(flags, wpaFlags, rsnFlags) == WifiSecWpa23 <==> rsnFlags != 0
    ensures Classify(flags, wpaFlags, rsnFlags) == WifiSecWpa <==> rsnFlags == 0 && wpaFlags != 0
    ensures Classify(flags, wpaFlags, rsnFlags) == WifiSecWep <==> rsnFlags == 0 && wpaFlags == 0 && flags % 2 == 1
    ensures Classify(flags, wpaFlags, rsnFlags) == WifiSecOpen <==> rsnFlags == 0 && wpaFlags == 0 && flags % 2 == 0
  {
  }

  /** Only the privacy bit of `flags` matters, and only when no WPA/RSN flag is set. */
  lemma ClassifyPrivacyBitOnly(flags: u32, flags': u32, wpaFlags: u32, rsnFlags: u32)
    requires flags % 2 == flags' % 2
    ensures Classify(flags, wpaFlags, rsnFlags) == Classify(flags', wpaFlags, rsnFlags)
  {
  }

  /** What an access point reports; the SSID is already decoded from UTF-8. */
  datatype AccessPoint = AccessPoint(
    ssid: string, frequency: u32, hwAddress: string, strength: u8,
    flags: u32, wpaFlags: u32, rsnFlags: u32)

  datatype WifiInfo = WifiInfo(freq: u32, bssid: string, signal: u8, security: WifiSecurity)

  function InfoOf(ap: AccessPoint): WifiInfo
  {
    WifiInfo(ap.frequency, ap.hwAddress, ap.strength, Classify(ap.flags, ap.wpaFlags, ap.rsnFlags))
  }

  /** The scan map after inserting the access points in order. */
  function ScanMap(aps: seq<AccessPoint>): map<string, WifiInfo>
  {
    if aps == [] then map[]
    else ScanMap(aps[..|aps| - 1])[aps[|aps| - 1].ssid := InfoOf(aps[|aps| - 1])]
  }

  /** The body of `scan_wifi` once the access-point list is non-empty: one insert per access point. */
  method ScanWifi(aps: seq<AccessPoint>) returns (scanResults: map<string, WifiInfo>)
    ensures scanResults == ScanMap(aps)
  {
    scanResults := map[];
    var i := 0;
    while i < |aps|
      invariant 0 <= i <= |aps|
      invariant scanResults == ScanMap(aps[..i])
    {
      assert aps[..i + 1][..i] == aps[..i];
      var ap := aps[i];
      var securityType := Classify(ap.flags, ap.wpaFlags, ap.rsnFlags);
      scanResults := scanResults[ap.ssid := WifiInfo(ap.frequency, ap.hwAddress, ap.strength, securityType)];
      i := i + 1;
    }
    assert aps[..i] == aps;
  }

  /** Keyed by SSID: every access point's SSID is a key ... */
  lemma {:induction false} ScanMapHasSsid(aps: seq<AccessPoint>, i: nat)
    requires i < |aps|
    ensures aps[i].ssid in ScanMap(aps)
    decreases |aps|
  {
    if i < |aps| - 1 {
      var init := aps[..|aps| - 1];
      assert init[i] == aps[i];
      ScanMapHasSsid(init, i);
    }
  }

  /** ... and every key is the SSID of some access point. */
  lemma {:induction false} ScanMapKeys(aps: seq<AccessPoint>, s: string)
    requires s in ScanMap(aps)
    ensures exists i :: 0 <= i < |aps| && aps[i].ssid == s
    decreases |aps|
  {
    var last := |aps| - 1;
    if aps[last].ssid != s {
      var init := aps[..last];
      ScanMapKeys(init, s);
      var i :| 0 <= i < |init| && init[i].ssid == s;
      assert aps[i] == init[i];
    }
  }

  /** A repeated SSID replaces the earlier entry: the last access point with an SSID decides its entry. */
  lemma {:induction false} ScanMapLastWins(aps: seq<AccessPoint>, i: nat)
    requires i < |aps|
    requires forall j :: i < j < |aps| ==> aps[j].ssid != aps[i].ssid
    ensures aps[i].ssid in ScanMap(aps) && ScanMap(aps)[aps[i].ssid] == InfoOf(aps[i])
    decreases |aps|
  {
    ScanMapHasSsid(aps, i);
    if i < |aps| - 1 {
      var init := aps[..|aps| - 1];
      assert init[i] == aps[i];
      assert aps[|aps| - 1].ssid != aps[i].ssid;
      ScanMapLastWins(init, i);
    }
  }

  /* ------------------------------------------------------------ stored connections */

  /** The values of a settings section that the rules look at; every other kind is `OtherValue`. */
  datatype Value = StrValue(s: string) | U64Value(n: u64) | BytesValue(b: seq<u8>) | OtherValue

  type Section = map<string, Value>
  type Settings = map<string, Section>

  const WIRELESS_TYPE: string := "802-11-wireless"
  const SECURITY_SECTION: string := "802-11-wireless-security"
  const NO_ID: string := "No ID found"
  const NO_TIMESTAMP: string := "No timestamp found"

  /** `extract_string`: a string value, or None for any other kind. */
  function ExtractString(v: Value): (r: Option<string>)
    ensures r.Some? <==> v.StrValue?
    ensures r.Some? ==> r.value == v.s
  {
    match v
    case StrValue(s) => Some(s)
    case _ => None
  }

  /** `extract_u64`: a u64 value, or None for any other kind. */
  function ExtractU64(v: Value): (r: Option<u64>)
    ensures r.Some? <==> v.U64Value?
    ensures r.Some? ==> r.value == v.n
  {
    match v
    case U64Value(n) => Some(n)
    case _ => None
  }

  /** A stored connection is Wi-Fi iff its "connection" section has `type` "802-11-wireless". */
  predicate IsWireless(setcfgs: Settings)
  {
    "connection" in setcfgs && "type" in setcfgs["connection"] &&
    ExtractString(setcfgs["connection"]["type"]) == Some(WIRELESS_TYPE)
  }

  /** The first loop of `get_stored_wifi`'s body: the sections in the map's own, unspecified order. */
  method WirelessCfgFound(setcfgs: Settings) returns (found: bool)
    ensures found <==> IsWireless(setcfgs)
  {
    found := false;
    var keys := setcfgs.Keys;
    while keys != {}
      invariant keys <= setcfgs.Keys
      invariant !found
      invariant "connection" in setcfgs && "connection" !in keys ==> !IsWireless(setcfgs)
      decreases keys
    {
      var keystr :| keystr in keys;
      if keystr == "connection" {
        var value := setcfgs[keystr];
        if "type" in value {
          var typeStr := ExtractString(value["type"]);
          if typeStr.Some? && typeStr.value == WIRELESS_TYPE {
            found := true;
            break;
          }
        }
      }
      keys := keys - {keystr};
    }
  }

  datatype WifiStoredInfo = WifiStoredInfo(created: string, security: WifiSecurity, psk: string)

  /** The map key of a stored entry: `connection.id`, or "No ID found". */
  function StoredKey(setcfgs: Settings): string
  {
    if "connection" in setcfgs && "id" in setcfgs["connection"] && ExtractString(setcfgs["connection"]["id"]).Some?
    then ExtractString(setcfgs["connection"]["id"]).value
    else NO_ID
  }

  /** A stored entry: the decimal timestamp or "No timestamp found"; security and psk are placeholders. */
  function StoredInfo(setcfgs: Settings): WifiStoredInfo
  {
    var created :=
      if "connection" in setcfgs && "timestamp" in setcfgs["connection"] && ExtractU64(setcfgs["connection"]["timestamp"]).Some?
      then Decimal.DecimalString(ExtractU64(setcfgs["connection"]["timestamp"]).value)
      else NO_TIMESTAMP;
    WifiStoredInfo(created, WifiSecOpen, "")
  }

  /** The stored map after processing the connections in order. */
  function StoredOf(connections: seq<Settings>): map<string, WifiStoredInfo>
  {
    if connections == [] then map[]
    else
      var last := connections[|connections| - 1];
      var m := StoredOf(connections[..|connections| - 1]);
      if IsWireless(last) then m[StoredKey(last) := StoredInfo(last)] else m
  }

  /** `get_stored_wifi` over the settings of each listed connection. */
  method GetStoredWifi(connections: seq<Settings>) returns (storedResults: map<string, WifiStoredInfo>)
    ensures storedResults == StoredOf(connections)
  {
    storedResults := map[];
    var i := 0;
    while i < |connections|
      invariant 0 <= i <= |connections|
      invariant storedResults == StoredOf(connections[..i])
    {
      assert connections[..i + 1][..i] == connections[..i];
      var setcfgs := connections[i];
      var wirelessCfgFound := WirelessCfgFound(setcfgs);
      if wirelessCfgFound {
        storedResults := storedResults[StoredKey(setcfgs) := StoredInfo(setcfgs)];
      }
      i := i + 1;
    }
    assert connections[..i] == connections;
  }

  /** The entry's `created` reads back as the stored timestamp, and is the placeholder only without one. */
  lemma StoredInfoFields(setcfgs: Settings)
    ensures StoredInfo(setcfgs).security == WifiSecOpen && StoredInfo(setcfgs).psk == ""
    ensures "connection" in setcfgs && "timestamp" in setcfgs["connection"] && setcfgs["connection"]["timestamp"].U64Value? ==>
      Decimal.AllDigits(StoredInfo(setcfgs).created) &&
      Decimal.DigitsValue(StoredInfo(setcfgs).created) == setcfgs["connection"]["timestamp"].n
    ensures !("connection" in setcfgs && "timestamp" in setcfgs["connection"] && setcfgs["connection"]["timestamp"].U64Value?) ==>
      StoredInfo(setcfgs).created == NO_TIMESTAMP
  {
    if "connection" in setcfgs && "timestamp" in setcfgs["connection"] && setcfgs["connection"]["timestamp"].U64Value? {
      Decimal.DecimalStringValue(setcfgs["connection"]["timestamp"].n);
    }
  }

  /** Every Wi-Fi connection leaves an entry under its key ... */
  lemma {:induction false} StoredOfHasKey(connections: seq<Settings>, i: nat)
    requires i < |connections| && IsWireless(connections[i])
    ensures StoredKey(connections[i]) in StoredOf(connections)
    decreases |connections|
  {
    if i < |connections| - 1 {
      var init := connections[..|connections| - 1];
      assert init[i] == connections[i];
      StoredOfHasKey(init, i);
    }
  }

  /** ... and every entry comes from a Wi-Fi connection: others leave no trace. */
  lemma {:induction false} StoredOfKeys(connections: seq<Settings>, k: string)
    requires k in StoredOf(connections)
    ensures exists i :: 0 <= i < |connections| && IsWireless(connections[i]) && StoredKey(connections[i]) == k
    decreases |connections|
  {
    var last := connections[|connections| - 1];
    if !(IsWireless(last) && StoredKey(last) == k) {
      var init := connections[..|connections| - 1];
      StoredOfKeys(init, k);
      var i :| 0 <= i < |init| && IsWireless(init[i]) && StoredKey(init[i]) == k;
      assert connections[i] == init[i];
    }
  }

  /** The last Wi-Fi connection with a given key decides that key's entry. */
  lemma {:induction false} StoredOfLastWins(connections: seq<Settings>, i: nat)
    requires i < |connections| && IsWireless(connections[i])
    requires forall j :: i < j < |connections| && IsWireless(connections[j]) ==> StoredKey(connections[j]) != StoredKey(connections[i])
    ensures StoredKey(connections[i]) in StoredOf(connections) && StoredOf(connections)[StoredKey(connections[i])] == StoredInfo(connections[i])
    decreases |connections|
  {
    StoredOfHasKey(connections, i);
    if i < |connections| - 1 {
      var init := connections[..|connections| - 1];
      assert init[i] == connections[i];
      StoredOfLastWins(init, i);
    }
  }

  /* ------------------------------------------------------------ connect_wifi */

  datatype MatchResult = Matched | NotMatched | Panicked

  /**
   * The existing-connection test of `connect_wifi`. Without a "connection"
   * section there is no match. Otherwise a missing `id` panics (`expect`);
   * an `id` equal to the SSID matches; only then is `interface-name` looked
   * at, and it panics when missing and matches when equal to the interface.
   * A value of another kind fails the `Str` downcast and never matches.
   */
  function ExistingMatch(settings: Settings, ssid: string, iface: string): MatchResult
  {
    if "connection" !in settings then NotMatched
    else
      var props := settings["connection"];
      if "id" !in props then Panicked
      else if props["id"] == StrValue(ssid) then Matched
      else if "interface-name" !in props then Panicked
      else if props["interface-name"] == StrValue(iface) then Matched
      else NotMatched
  }

  lemma ExistingMatchIff(settings: Settings, ssid: string, iface: string)
    ensures ExistingMatch(settings, ssid, iface) == Matched <==>
      "connection" in settings && "id" in settings["connection"] &&
      (settings["connection"]["id"] == StrValue(ssid) ||
       ("interface-name" in settings["connection"] && settings["connection"]["interface-name"] == StrValue(iface)))
    ensures ExistingMatch(settings, ssid, iface) == Panicked <==>
      "connection" in settings &&
      ("id" !in settings["connection"] ||
       (settings["connection"]["id"] != StrValue(ssid) && "interface-name" !in settings["connection"]))
  {
  }

  datatype Search = Found(index: nat) | NotFound | SearchPanicked

  /** The first connection that matches, scanning in list order and stopping at a panic. */
  function FirstExisting(connections: seq<Settings>, ssid: string, iface: string): (r: Search)
    ensures r.Found? ==> r.index < |connections|
  {
    if connections == [] then NotFound
    else match ExistingMatch(connections[0], ssid, iface)
      case Matched => Found(0)
      case Panicked => SearchPanicked
      case NotMatched =>
        var rest := FirstExisting(connections[1..], ssid, iface);
        if rest.Found? then Found(rest.index + 1) else rest
  }

  /** Found(k) iff connection k matches and none before it matched or panicked; NotFound iff none matched or panicked. */
  lemma {:induction false} FirstExistingSpec(connections: seq<Settings>, ssid: string, iface: string)
    ensures FirstExisting(connections, ssid, iface).Found? ==>
      var k := FirstExisting(connections, ssid, iface).index;
      ExistingMatch(connections[k], ssid, iface) == Matched &&
      forall j :: 0 <= j < k ==> ExistingMatch(connections[j], ssid, iface) == NotMatched
    ensures FirstExisting(connections, ssid, iface) == NotFound <==>
      forall j :: 0 <= j < |connections| ==> ExistingMatch(connections[j], ssid, iface) == NotMatched
    ensures forall k :: (0 <= k < |connections| && ExistingMatch(connections[k], ssid, iface) == Matched &&
      (forall j :: 0 <= j < k ==> ExistingMatch(connections[j], ssid, iface) == NotMatched)) ==>
        FirstExisting(connections, ssid, iface) == Found(k)
    decreases |connections|
  {
    if connections != [] {
      var rest := connections[1..];
      FirstExistingSpec(rest, ssid, iface);
      assert forall j :: 1 <= j < |connections| ==> connections[j] == rest[j - 1];
    }
  }

  /** The search loop of `connect_wifi`. */
  method FindExisting(connections: seq<Settings>, ssid: string, iface: string) returns (r: Search)
    ensures r == FirstExisting(connections, ssid, iface)
  {
    var i := 0;
    while i < |connections|
      invariant 0 <= i <= |connections|
      invariant forall j :: 0 <= j < i ==> ExistingMatch(connections[j], ssid, iface) == NotMatched
      invariant FirstExisting(connections, ssid, iface) == Lift(FirstExisting(connections[i..], ssid, iface), i)
    {
      assert connections[i..][1..] == connections[i + 1..];
      var m := ExistingMatch(connections[i], ssid, iface);
      if m == Matched {
        return Found(i);
      } else if m == Panicked {
        return SearchPanicked;
      }
      i := i + 1;
    }
    return NotFound;
  }

  /** A search result of a suffix starting at i, seen from the whole list. */
  function Lift(r: Search, i: nat): Search
  {
    if r.Found? then Found(r.index + i) else r
  }

  /**
   * The settings edit before `update`: with a password the security
   * section (created if missing) gets `key-mgmt` "wpa-psk" and `psk`; in
   * every case the ipv4 section (created if missing) gets `method` "auto".
   */
  function Edited(settings: Settings, password: Option<string>): Settings
  {
    var withSecurity :=
      if password.None? then settings
      else
        var sec := if SECURITY_SECTION in settings then settings[SECURITY_SECTION] else map[];
        settings[SECURITY_SECTION := sec["key-mgmt" := StrValue("wpa-psk")]["psk" := StrValue(password.value)]];
    var ipv4 := if "ipv4" in withSecurity then withSecurity["ipv4"] else map[];
    withSecurity["ipv4" := ipv4["method" := StrValue("auto")]]
  }

  /** The in-place edit: `get_mut` and `insert` on the nested map, one key at a time. */
  method EditSettings(settings: Settings, password: Option<string>) returns (edited: Settings)
    ensures edited == Edited(settings, password)
  {
    edited := settings;
    if password.Some? {
      var pass := password.value;
      if SECURITY_SECTION in edited {
        var wirelessSecurity := edited[SECURITY_SECTION];
        wirelessSecurity := wirelessSecurity["key-mgmt" := StrValue("wpa-psk")];
        wirelessSecurity := wirelessSecurity["psk" := StrValue(pass)];
        edited := edited[SECURITY_SECTION := wirelessSecurity];
      } else {
        var securityProps: Section := map[];
        securityProps := securityProps["key-mgmt" := StrValue("wpa-psk")];
        securityProps := securityProps["psk" := StrValue(pass)];
        edited := edited[SECURITY_SECTION := securityProps];
      }
    }
    if "ipv4" in edited {
      var ipv4Props := edited["ipv4"];
      ipv4Props := ipv4Props["method" := StrValue("auto")];
      edited := edited["ipv4" := ipv4Props];
    } else {
      var ipv4Props: Section := map[];
      ipv4Props := ipv4Props["method" := StrValue("auto")];
      edited := edited["ipv4" := ipv4Props];
    }
  }

  /**
   * What the edit changes and what it keeps: the two keys of the security
   * section (only with a password), `ipv4.method`, and nothing else.
   */
  lemma EditedSections(settings: Settings, password: Option<string>)
    ensures var e := Edited(settings, password);
      && e.Keys == settings.Keys + {"ipv4"} + (if password.Some? then {SECURITY_SECTION} else {})
      && e["ipv4"]["method"] == StrValue("auto")
      && (forall k :: k in e["ipv4"] && k != "method" ==> "ipv4" in settings && k in settings["ipv4"] && e["ipv4"][k] == settings["ipv4"][k])
      && (forall k :: "ipv4" in settings && k in settings["ipv4"] ==> k in e["ipv4"])
      && (password.Some? ==>
            e[SECURITY_SECTION]["key-mgmt"] == StrValue("wpa-psk") && e[SECURITY_SECTION]["psk"] == StrValue(password.value) &&
            (forall k :: SECURITY_SECTION in settings && k in settings[SECURITY_SECTION] ==> k in e[SECURITY_SECTION]) &&
            (forall k :: k in e[SECURITY_SECTION] && k != "key-mgmt" && k != "psk" ==>
               SECURITY_SECTION in settings && k in settings[SECURITY_SECTION] && e[SECURITY_SECTION][k] == settings[SECURITY_SECTION][k]))
      && (password.None? && SECURITY_SECTION in settings ==> e[SECURITY_SECTION] == settings[SECURITY_SECTION])
      && (forall s :: s in settings && s != "ipv4" && s != SECURITY_SECTION ==> e[s] == settings[s])
  {
  }

  /** Editing twice gives what editing once gives. */
  lemma EditedIdempotent(settings: Settings, password: Option<string>)
    ensures Edited(Edited(settings, password), password) == Edited(settings, password)
  {
    var e := Edited(settings, password);
    var e2 := Edited(e, password);
    EditedSections(settings, password);
    EditedSections(e, password);
    assert e2.Keys == e.Keys;
    forall s | s in e
      ensures e2[s] == e[s]
    {
      if s == "ipv4" {
        assert e2[s].Keys == e[s].Keys;
      } else if s == SECURITY_SECTION && password.Some? {
        assert e2[s].Keys == e[s].Keys;
      }
    }
  }

  /** The settings `connect_wifi` adds when no existing connection matches. */
  function NewConnection(ssid: string, iface: string, password: Option<string>): Settings
  {
    var conn := map["id" := StrValue(ssid), "type" := StrValue(WIRELESS_TYPE), "interface-name" := StrValue(iface)];
    var wireless := map["ssid" := BytesValue(Utf8Bytes(ssid)), "mode" := StrValue("infrastructure")];
    var base := map["connection" := conn, WIRELESS_TYPE := wireless, "ipv4" := map["method" := StrValue("auto")]];
    if password.Some? then base[SECURITY_SECTION := map["key-mgmt" := StrValue("wpa-psk"), "psk" := StrValue(password.value)]]
    else base
  }

  /** `ssid.as_bytes()`: the UTF-8 encoding is outside this model, so only 8-bit characters are carried over, as themselves. */
  function Utf8Bytes(s: string): (b: seq<u8>)
    ensures |b| == |s|
  {
    seq(|s|, i requires 0 <= i < |s| => if s[i] as int < 0x100 then s[i] as int else 0)
  }

  /** A connection that `connect_wifi` adds is Wi-Fi, is found by the next call with the same SSID, and is stored under that SSID. */
  lemma NewConnectionFound(ssid: string, iface: string, password: Option<string>)
    ensures IsWireless(NewConnection(ssid, iface, password))
    ensures ExistingMatch(NewConnection(ssid, iface, password), ssid, iface) == Matched
    ensures StoredKey(NewConnection(ssid, iface, password)) == ssid
    ensures StoredInfo(NewConnection(ssid, iface, password)).created == NO_TIMESTAMP
  {
  }

  /** What `connect_wifi` sends: an update of connection `index` or a new connection, unless the search panicked. */
  datatype ConnectAction = UpdateExisting(index: nat, settings: Settings) | AddNew(settings: Settings) | ConnectPanicked

  /** The decision part of `connect_wifi`, over the listed connections' settings. */
  method ConnectWifi(connections: seq<Settings>, iface: string, ssid: string, password: Option<string>) returns (action: ConnectAction)
    ensures match FirstExisting(connections, ssid, iface)
      case Found(k) => action == UpdateExisting(k, Edited(connections[k], password))
      case NotFound => action == AddNew(NewConnection(ssid, iface, password))
      case SearchPanicked => action == ConnectPanicked
  {
    var existing := FindExisting(connections, ssid, iface);
    match existing
    case Found(k) =>
      var settings := EditSettings(connections[k], password);
      action := UpdateExisting(k, settings);
    case NotFound =>
      action := AddNew(NewConnection(ssid, iface, password));
    case SearchPanicked =>
      action := ConnectPanicked;
  }
}
