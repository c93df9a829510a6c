/**
 * The ModemManager client: the `ready` latch of `IonModemCli` and the way
 * the D-Bus replies are read. Every D-Bus call is replaced by its reply,
 * passed in as a parameter (`Err` when the call itself fails).
 */
module ModemCli {
  import opened Wrappers

  type u32 = x: int | 0 <= x < 0x1_0000_0000
  type i32 = x: int | -0x8000_0000 <= x < 0x8000_0000

  /** The D-Bus message items the client inspects; every other kind is `OtherItem`. */
  datatype MessageItem =
    | Variant(inner: MessageItem)
    | UInt32(u: u32)
    | Int32(i: i32)
    | Str(s: string)
    | Dict(entries: seq<(MessageItem, MessageItem)>)
    | OtherItem

  /** A failed D-Bus call (connection, message construction or reply). */
  datatype DbusError = DbusFailed

  type Reply = Result<seq<MessageItem>, DbusError>

  const MM_DESTINATION: string := "org.freedesktop.ModemManager1"
  const MM_OBJECT: string := "/org/freedesktop/ModemManager1"
  const MODEM_INTERFACE: string := "org.freedesktop.ModemManager1.Modem"

  /* ------------------------------------------------------------ bit tests */

  /**
   * `mask & 4 != 0`: bit 2 of the mask. Dafny's `%` never goes negative,
   * so on a negative value it sees the two's-complement low bits.
   */
  predicate HasBit2(m: int)
  {
    m % 8 >= 4
  }

  /** `state & 8 != 0`: bit 3 of the state. */
  predicate HasBit3(m: int)
  {
    m % 16 >= 8
  }

  /** Bit 2 of a byte, tested with `&`, is its value mod 8 reaching 4. */
  lemma Bit2OfByte(b: bv8)
    ensures (b & 4 != 0) <==> (b as int) % 8 >= 4
  {
  }

  /** Bit 3 of a byte, tested with `&`, is its value mod 16 reaching 8. */
  lemma Bit3OfByte(b: bv8)
    ensures (b & 8 != 0) <==> (b as int) % 16 >= 8
  {
  }

  /** The low three and four bits of a value are those of its low byte. */
  lemma LowBitsOfLowByte(m: int)
    ensures m % 8 == (m % 256) % 8 && m % 16 == (m % 256) % 16
  {
    var r := m % 256;
    assert m == 8 * (32 * (m / 256) + r / 8) + r % 8;
    assert m == 16 * (16 * (m / 256) + r / 16) + r % 16;
  }

  /** The low byte of a value's 32-bit word is the value's own low byte. */
  lemma WordLowByte(m: int)
    ensures (m % 0x1_0000_0000) % 256 == m % 256
  {
    var w := m % 0x1_0000_0000;
    assert m == 0x1_0000_0000 * (m / 0x1_0000_0000) + w;
    assert w == 256 * (m / 256 - 0x100_0000 * (m / 0x1_0000_0000)) + m % 256;
  }

  /**
   * HasBit2 is the source's `& 4`: for the low byte b of m, it holds exactly
   * when `b & 4` is non-zero. For a negative value the low byte is that of
   * its two's-complement word, since `%` is Euclidean.
   */
  lemma HasBit2Mask(m: int, b: bv8)
    requires b as int == m % 256
    ensures HasBit2(m) <==> b & 4 != 0
  {
    LowBitsOfLowByte(m);
    Bit2OfByte(b);
  }

  /** HasBit3 is the source's `& 8`: for the low byte b of m, it holds exactly when `b & 8` is non-zero. */
  lemma HasBit3Mask(m: int, b: bv8)
    requires b as int == m % 256
    ensures HasBit3(m) <==> b & 8 != 0
  {
    LowBitsOfLowByte(m);
    Bit3OfByte(b);
  }

  /**
   * On an i32 state, HasBit3 tests bit 3 of the 32-bit two's-complement
   * word `state as u32` (whose low byte is b), as `state & 8` does,
   * negative states included.
   */
  lemma HasBit3Word(m: i32, b: bv8)
    requires b as int == (m % 0x1_0000_0000) % 256
    ensures HasBit3(m) <==> b & 8 != 0
  {
    WordLowByte(m);
    HasBit3Mask(m, b);
  }

  /* ------------------------------------------------------ reply interpretation */

  /**
   * `is_location_enabled`: the loop returns on the first reply item, so the
   * answer is decided by it alone: `Variant(UInt32 mask)` with `mask & 4 != 0`.
   */
  function LocationEnabled(reply: Reply): bool
  {
    match reply
    case Err(_) => false
    case Ok(items) =>
      if items == [] then false
      else match items[0]
        case Variant(UInt32(mask)) => HasBit2(mask)
        case _ => false
  }

  /** `is_modem_enabled`: the same rule on `Variant(Int32 state)` with `state & 8 != 0`. */
  function ModemEnabled(reply: Reply): bool
  {
    match reply
    case Err(_) => false
    case Ok(items) =>
      if items == [] then false
      else match items[0]
        case Variant(Int32(state)) => HasBit3(state)
        case _ => false
  }

  lemma LocationEnabledIff(reply: Reply)
    ensures LocationEnabled(reply) <==>
      exists mask: u32, rest: seq<MessageItem> ::
        reply == Ok([Variant(UInt32(mask))] + rest) && HasBit2(mask)
  {
    if LocationEnabled(reply) {
      var items := reply.value;
      assert items == [items[0]] + items[1..];
    }
  }

  lemma ModemEnabledIff(reply: Reply)
    ensures ModemEnabled(reply) <==>
      exists state: i32, rest: seq<MessageItem> ::
        reply == Ok([Variant(Int32(state))] + rest) && HasBit3(state)
  {
    if ModemEnabled(reply) {
      var items := reply.value;
      assert items == [items[0]] + items[1..];
    }
  }

  /** Items after the first never matter, and a failed call reads as "disabled". */
  lemma EnabledFirstItemOnly(first: MessageItem, rest: seq<MessageItem>, rest': seq<MessageItem>)
    ensures LocationEnabled(Ok([first] + rest)) == LocationEnabled(Ok([first] + rest'))
    ensures ModemEnabled(Ok([first] + rest)) == ModemEnabled(Ok([first] + rest'))
    ensures !LocationEnabled(Err(DbusFailed)) && !ModemEnabled(Err(DbusFailed))
    ensures !LocationEnabled(Ok([])) && !ModemEnabled(Ok([]))
  {
    assert ([first] + rest)[0] == first == ([first] + rest')[0];
  }

  /** The location test on a reply whose first item is `Variant(UInt32 mask)` is `mask & 4 != 0`, read on the low byte b of mask. */
  lemma LocationEnabledMask(mask: u32, rest: seq<MessageItem>, b: bv8)
    requires b as int == mask % 256
    ensures LocationEnabled(Ok([Variant(UInt32(mask))] + rest)) <==> b & 4 != 0
  {
    assert ([Variant(UInt32(mask))] + rest)[0] == Variant(UInt32(mask));
    HasBit2Mask(mask, b);
  }

  /** The modem test on a reply whose first item is `Variant(Int32 state)` is `state & 8 != 0`, read on the low byte b of its 32-bit word. */
  lemma ModemEnabledMask(state: i32, rest: seq<MessageItem>, b: bv8)
    requires b as int == (state % 0x1_0000_0000) % 256
    ensures ModemEnabled(Ok([Variant(Int32(state))] + rest)) <==> b & 8 != 0
  {
    assert ([Variant(Int32(state))] + rest)[0] == Variant(Int32(state));
    HasBit3Word(state, b);
  }

  /** `get_signal_quality` does not ask the modem: it is always 0. */
  function SignalQuality(): (q: u32)
    ensures q == 0
  {
    0
  }

  /* ------------------------------------------------------------ get_location */

  /** A dict entry that carries an NMEA string: key `UInt32 4`, value `Variant(Str s)`. */
  predicate IsNmeaEntry(e: (MessageItem, MessageItem))
  {
    e.0 == UInt32(4) && e.1.Variant? && e.1.inner.Str?
  }

  /** All dict entries of the reply, in order; items that are not dicts contribute none. */
  function AllEntries(items: seq<MessageItem>): (es: seq<(MessageItem, MessageItem)>)
  {
    if items == [] then []
    else AllEntries(items[..|items| - 1]) + (if items[|items| - 1].Dict? then items[|items| - 1].entries else [])
  }

  /** The `nmea_str` variable after scanning the entries: the last NMEA entry wins. */
  function LastNmea(acc: string, es: seq<(MessageItem, MessageItem)>): string
  {
    if es == [] then acc
    else if IsNmeaEntry(es[|es| - 1]) then es[|es| - 1].1.inner.s
    else LastNmea(acc, es[..|es| - 1])
  }

  /** What `get_location` returns for the `Location.Enabled` reply and the `GetLocation` reply. */
  function Location(enabledReply: Reply, locationReply: Reply): string
  {
    if !LocationEnabled(enabledReply) || locationReply.Err? then ""
    else LastNmea("", AllEntries(locationReply.value))
  }

  lemma {:induction false} LastNmeaAppend(acc: string, es: seq<(MessageItem, MessageItem)>, more: seq<(MessageItem, MessageItem)>)
    ensures LastNmea(acc, es + more) == LastNmea(LastNmea(acc, es), more)
    decreases |more|
  {
    if more != [] {
      assert (es + more)[..|es + more| - 1] == es + more[..|more| - 1];
      LastNmeaAppend(acc, es, more[..|more| - 1]);
    } else {
      assert es + more == es;
    }
  }

  /** The scan keeps the text of the last NMEA entry: if entry k is one and none after it is, that is the result. */
  lemma {:induction false} LastNmeaIsLast(acc: string, es: seq<(MessageItem, MessageItem)>, k: nat)
    requires k < |es| && IsNmeaEntry(es[k])
    requires forall j :: k < j < |es| ==> !IsNmeaEntry(es[j])
    ensures LastNmea(acc, es) == es[k].1.inner.s
    decreases |es|
  {
    if k < |es| - 1 {
      var init := es[..|es| - 1];
      assert !IsNmeaEntry(es[|es| - 1]);
      assert init[k] == es[k];
      LastNmeaIsLast(acc, init, k);
    }
  }

  /** With no NMEA entry at all the scan leaves its starting value. */
  lemma {:induction false} LastNmeaNone(acc: string, es: seq<(MessageItem, MessageItem)>)
    requires forall k :: 0 <= k < |es| ==> !IsNmeaEntry(es[k])
    ensures LastNmea(acc, es) == acc
    decreases |es|
  {
    if es != [] {
      assert !IsNmeaEntry(es[|es| - 1]);
      LastNmeaNone(acc, es[..|es| - 1]);
    }
  }

  /** `get_location` is "" when location is off, when the call fails or when no entry carries NMEA. */
  lemma LocationEmptyCases(enabledReply: Reply, locationReply: Reply)
    ensures !LocationEnabled(enabledReply) ==> Location(enabledReply, locationReply) == ""
    ensures locationReply.Err? ==> Location(enabledReply, locationReply) == ""
    ensures locationReply.Ok? && (forall k :: 0 <= k < |AllEntries(locationReply.value)| ==> !IsNmeaEntry(AllEntries(locationReply.value)[k])) ==>
      Location(enabledReply, locationReply) == ""
  {
    if locationReply.Ok? {
      if forall k :: 0 <= k < |AllEntries(locationReply.value)| ==> !IsNmeaEntry(AllEntries(locationReply.value)[k]) {
        LastNmeaNone("", AllEntries(locationReply.value));
      }
    }
  }

  /** With location enabled and the call answered, `get_location` is the text of the last NMEA entry. */
  lemma LocationIsLastNmea(enabledReply: Reply, items: seq<MessageItem>, k: nat)
    requires LocationEnabled(enabledReply)
    requires k < |AllEntries(items)| && IsNmeaEntry(AllEntries(items)[k])
    requires forall j :: k < j < |AllEntries(items)| ==> !IsNmeaEntry(AllEntries(items)[j])
    ensures Location(enabledReply, Ok(items)) == AllEntries(items)[k].1.inner.s
  {
    LastNmeaIsLast("", AllEntries(items), k);
  }

  /* ------------------------------------------------------------ the client */

  /** An object path and the names of the interfaces it exports, as `get_managed_objects` lists them. */
  type ManagedObject = (string, set<string>)

  /** The path of the first object that exports the Modem interface, or "" if none does. */
  function FirstModem(objects: seq<ManagedObject>): string
  {
    if objects == [] then ""
    else if MODEM_INTERFACE in objects[0].1 then objects[0].0
    else FirstModem(objects[1..])
  }

  lemma {:induction false} FirstModemSpec(objects: seq<ManagedObject>)
    ensures (forall k :: 0 <= k < |objects| ==> MODEM_INTERFACE !in objects[k].1) ==> FirstModem(objects) == ""
    ensures forall k ::
      (0 <= k < |objects| && MODEM_INTERFACE in objects[k].1 && (forall j :: 0 <= j < k ==> MODEM_INTERFACE !in objects[j].1)) ==>
        FirstModem(objects) == objects[k].0
    decreases |objects|
  {
    if objects != [] {
      var tail := objects[1..];
      FirstModemSpec(tail);
      assert forall k :: 1 <= k < |objects| ==> objects[k] == tail[k - 1];
    }
  }

  /**
   * D-Bus object paths are never empty, so with real paths the detected
   * path is "" exactly when no object offers the Modem interface.
   */
  lemma {:induction false} FirstModemEmptyIff(objects: seq<ManagedObject>)
    requires forall k :: 0 <= k < |objects| ==> objects[k].0 != ""
    ensures FirstModem(objects) == "" <==> forall k :: 0 <= k < |objects| ==> MODEM_INTERFACE !in objects[k].1
    decreases |objects|
  {
    if objects != [] {
      var tail := objects[1..];
      assert forall k :: 1 <= k < |objects| ==> objects[k] == tail[k - 1];
      FirstModemEmptyIff(tail);
    }
  }

  class IonModemCli {
    var destination: string
    var objectPath: string
    var modem: string
    var ready: bool

    /** `Default::default`: the ModemManager service and root object, no modem, not ready. */
    constructor Default()
      ensures destination == MM_DESTINATION && objectPath == MM_OBJECT
      ensures modem == "" && !ready
    {
      destination := MM_DESTINATION;
      objectPath := MM_OBJECT;
      modem := "";
      ready := false;
    }

    /** `new` stores its four arguments unchanged (the `object` field is `objectPath` here, `object` being a Dafny keyword). */
    constructor New(destination: string, objectPath: string, modem: string, ready: bool)
      ensures this.destination == destination && this.objectPath == objectPath
      ensures this.modem == modem && this.ready == ready
    {
      this.destination := destination;
      this.objectPath := objectPath;
      this.modem := modem;
      this.ready := ready;
    }

    /**
     * `modem_path_detection`: the managed objects arrive in the HashMap's
     * iteration order; the first one with the Modem interface gives the
     * path, and none gives "". Only a failed call is an error.
     */
    method ModemPathDetection(managed: Result<seq<ManagedObject>, DbusError>) returns (r: Result<string, DbusError>)
      ensures managed.Err? ==> r == Err(DbusFailed)
      ensures managed.Ok? ==> r == Ok(FirstModem(managed.value))
    {
      if managed.Err? {
        return Err(DbusFailed);
      }
      var objects := managed.value;
      var modempath := "";
      var i := 0;
      while i < |objects|
        invariant 0 <= i <= |objects|
        invariant FirstModem(objects) == FirstModem(objects[i..])
        invariant modempath == ""
      {
        if MODEM_INTERFACE in objects[i].1 {
          modempath := objects[i].0;
          break;
        }
        assert objects[i..][1..] == objects[i + 1..];
        i := i + 1;
      }
      return Ok(modempath);
    }

    /** `modem_preparing`: a successful detection stores the path and answers true. */
    method ModemPreparing(managed: Result<seq<ManagedObject>, DbusError>) returns (ok: bool)
      modifies this
      ensures ok <==> managed.Ok?
      ensures modem == (if managed.Ok? then FirstModem(managed.value) else old(modem))
      ensures destination == old(destination) && objectPath == old(objectPath) && ready == old(ready)
    {
      var detected := ModemPathDetection(managed);
      match detected
      case Ok(path) =>
        modem := path;
        return true;
      case Err(_) =>
        return false;
    }

    /** `is_ready`: the latch, without side effects. */
    function IsReady(): (r: bool)
      reads this
      ensures r == ready
    {
      ready
    }

    /**
     * `waiting_for_ready`: once ready, nothing is attempted and the answer
     * stays true; otherwise the latch closes iff detection succeeds, which
     * it does whenever the object-manager call does, even with no modem.
     */
    method WaitingForReady(managed: Result<seq<ManagedObject>, DbusError>) returns (r: bool)
      modifies this
      ensures r == ready
      ensures old(ready) ==> ready && unchanged(this)
      ensures !old(ready) ==> (ready <==> managed.Ok?)
      ensures !old(ready) && managed.Ok? ==> modem == FirstModem(managed.value)
      ensures !old(ready) && managed.Err? ==> modem == old(modem)
      ensures destination == old(destination) && objectPath == old(objectPath)
    {
      if !ready {
        var prepared := ModemPreparing(managed);
        if prepared {
          ready := true;
        }
      }
      return ready;
    }

    /**
     * `get_location`: the NMEA text under key 4 of the `GetLocation` dict,
     * last one wins, or "" unless location is enabled and the call succeeds.
     */
    method GetLocation(enabledReply: Reply, locationReply: Reply) returns (nmea: string)
      ensures nmea == Location(enabledReply, locationReply)
    {
      nmea := "";
      if LocationEnabled(enabledReply) {
        match locationReply
        case Err(_) =>
        case Ok(responds) =>
          var i := 0;
          while i < |responds|
            invariant 0 <= i <= |responds|
            invariant nmea == LastNmea("", AllEntries(responds[..i]))
          {
            assert responds[..i + 1][..i] == responds[..i];
            if responds[i].Dict? {
              var dict := responds[i].entries;
              ghost var before := nmea;
              var j := 0;
              while j < |dict|
                invariant 0 <= j <= |dict|
                invariant nmea == LastNmea(before, dict[..j])
              {
                assert dict[..j + 1][..j] == dict[..j];
                var (x, y) := dict[j];
                if x == UInt32(4) && y.Variant? && y.inner.Str? {
                  nmea := y.inner.s;
                }
                j := j + 1;
              }
              assert dict[..j] == dict;
              assert AllEntries(responds[..i + 1]) == AllEntries(responds[..i]) + dict;
              LastNmeaAppend("", AllEntries(responds[..i]), dict);
            } else {
              ghost var es := AllEntries(responds[..i]);
              assert AllEntries(responds[..i + 1]) == es + [] == es;
            }
            i := i + 1;
          }
          assert responds[..i] == responds;
      }
    }
  }
}
