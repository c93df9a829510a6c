/**
 * The CAN helpers: the name index built from the `BO_ <id> <name>:` lines of
 * a DBC file, name to extended-id lookups and filter lists (masked with
 * 0x1FFFFFFF), and the per-frame decode loop.
 *
 * The socket and the signal library stay outside: a frame read arrives as a
 * value, the library's id-to-signal-names index as a map, and its signal
 * descriptor lookup and bit extraction as function parameters over an
 * abstract descriptor type D and value type V.
 */
module CanTool {
  import opened Wrappers
  import opened Decimal

  type u8 = x: int | 0 <= x < 0x100
  type u32 = x: int | 0 <= x < 0x1_0000_0000

  /** The 29-bit extended identifier mask. */
  const EXTENDED_MASK: u32 := 0x1FFF_FFFF

  /* ------------------------------------------------------------ DBC line scan */

  /** One item of `BufRead::lines`: the text of a line, or a read error. */
  datatype LineRead = Line(text: string) | ReadError

  /** Why a CAN call failed. */
  datatype CanError = ReadFailed

  /** `char::is_whitespace`: the Unicode White_Space code points. */
  predicate IsWhitespace(c: char)
  {
    var n := c as int;
    (0x09 <= n <= 0x0D) || n == 0x20 || n == 0x85 || n == 0xA0 || n == 0x1680 ||
    (0x2000 <= n <= 0x200A) || n == 0x2028 || n == 0x2029 || n == 0x202F ||
    n == 0x205F || n == 0x3000
  }

  predicate NoWhitespace(s: string)
  {
    forall i :: 0 <= i < |s| ==> !IsWhitespace(s[i])
  }

  /** The longest prefix of s without white space. */
  function Word(s: string): (w: string)
    ensures |w| <= |s| && w == s[..|w|] && NoWhitespace(w)
    ensures |w| < |s| ==> IsWhitespace(s[|w|])
  {
    if s == [] || IsWhitespace(s[0]) then []
    else
      var rest := Word(s[1..]);
      assert s[1..][..|rest|] == s[1..|rest| + 1];
      [s[0]] + rest
  }

  /** `str::split_whitespace`: the maximal runs of characters that are not white space, in order. */
  function Tokens(s: string): (ts: seq<string>)
    decreases |s|
  {
    if s == [] then []
    else if IsWhitespace(s[0]) then Tokens(s[1..])
    else
      var w := Word(s);
      [w] + Tokens(s[|w|..])
  }

  /** Every token is non-empty and free of white space. */
  lemma {:induction false} TokensWellFormed(s: string)
    ensures forall i :: 0 <= i < |Tokens(s)| ==> |Tokens(s)[i]| > 0 && NoWhitespace(Tokens(s)[i])
    decreases |s|
  {
    if s == [] {
    } else if IsWhitespace(s[0]) {
      TokensWellFormed(s[1..]);
    } else {
      TokensWellFormed(s[|Word(s)|..]);
    }
  }

  /** A line that starts with "BO_ " has "BO_" as its first token. */
  lemma BoLineFirstToken(line: string)
    requires StartsWith(line, "BO_ ")
    ensures |Tokens(line)| > 0 && Tokens(line)[0] == "BO_"
  {
    assert !IsWhitespace(line[0]);
    assert |Word(line)| >= 1;
    assert Word(line)[..3] == line[..3] == "BO_";
    assert IsWhitespace(line[3]);
    assert |Word(line)| == 3;
  }

  predicate StartsWith(s: string, prefix: string)
  {
    |prefix| <= |s| && s[..|prefix|] == prefix
  }

  /** `trim_end_matches(':')`: s with every trailing ':' removed. */
  function TrimEndColons(s: string): (t: string)
    ensures |t| <= |s| && t == s[..|t|]
    ensures t == [] || t[|t| - 1] != ':'
    ensures forall i :: |t| <= i < |s| ==> s[i] == ':'
  {
    if s != [] && s[|s| - 1] == ':' then TrimEndColons(s[..|s| - 1]) else s
  }

  /** What one DBC line contributes to the index: a (name, id) pair, or nothing. */
  function LineEntry(line: string): Option<(string, u32)>
  {
    if !StartsWith(line, "BO_ ") then None
    else
      var parts := Tokens(line);
      if |parts| <= 2 then None
      else match ParseU32(parts[1])
        case Some(id) => Some((TrimEndColons(parts[2]), id))
        case None => None
  }

  /** The name index after the given lines, each inserted in turn so that a later line wins. */
  function NameIndexOf(lines: seq<string>): map<string, u32>
  {
    if lines == [] then map[]
    else
      var m := NameIndexOf(lines[..|lines| - 1]);
      match LineEntry(lines[|lines| - 1])
        case Some(entry) => m[entry.0 := entry.1]
        case None => m
  }

  predicate AllRead(lines: seq<LineRead>)
  {
    forall i :: 0 <= i < |lines| ==> lines[i].Line?
  }

  function Texts(lines: seq<LineRead>): (ts: seq<string>)
    requires AllRead(lines)
    ensures |ts| == |lines| && forall i :: 0 <= i < |lines| ==> ts[i] == lines[i].text
  {
    seq(|lines|, i requires 0 <= i < |lines| => lines[i].text)
  }

  /** The lines read so far, one more line at a time. */
  lemma TextsSnoc(lines: seq<LineRead>, i: nat)
    requires i < |lines| && AllRead(lines[..i]) && lines[i].Line?
    ensures AllRead(lines[..i + 1])
    ensures Texts(lines[..i + 1]) == Texts(lines[..i]) + [lines[i].text]
  {
    assert Texts(lines[..i + 1])[..i] == Texts(lines[..i]);
  }

  /** The DBC scan of `CanUtils::new`: a read error aborts, otherwise every line is offered to the index. */
  method ScanDbc(lines: seq<LineRead>) returns (r: Result<map<string, u32>, CanError>)
    ensures AllRead(lines) ==> r == Ok(NameIndexOf(Texts(lines)))
    ensures !AllRead(lines) ==> r == Err(ReadFailed)
  {
    var hashMsg: map<string, u32> := map[];
    var i := 0;
    while i < |lines|
      invariant 0 <= i <= |lines|
      invariant AllRead(lines[..i]) && hashMsg == NameIndexOf(Texts(lines[..i]))
    {
      if lines[i].ReadError? {
        return Err(ReadFailed);
      }
      var line := lines[i].text;
      TextsSnoc(lines, i);
      LineEntryIff(line);
      if StartsWith(line, "BO_ ") {
        var parts := Tokens(line);
        if |parts| > 2 {
          var parsed := ParseU32(parts[1]);
          if parsed.Some? {
            var name := TrimEndColons(parts[2]);
            hashMsg := hashMsg[name := parsed.value];
          }
        }
      }
      i := i + 1;
    }
    assert lines[..i] == lines;
    r := Ok(hashMsg);
  }

  /** A line is used iff it starts with "BO_ ", has at least three tokens and its second token parses as a u32. */
  lemma LineEntryIff(line: string)
    ensures LineEntry(line).Some? <==>
      StartsWith(line, "BO_ ") && |Tokens(line)| > 2 && ParseU32(Tokens(line)[1]).Some?
    ensures LineEntry(line).Some? ==>
      LineEntry(line).value == (TrimEndColons(Tokens(line)[2]), ParseU32(Tokens(line)[1]).value)
  {
  }

  /** Line i of the file gives an entry for name. */
  predicate NamedAt(lines: seq<string>, i: int, name: string)
  {
    0 <= i < |lines| && LineEntry(lines[i]).Some? && LineEntry(lines[i]).value.0 == name
  }

  /** A name is indexed iff some line gives an entry for it. */
  lemma {:induction false} NameIndexKeys(lines: seq<string>, name: string)
    ensures name in NameIndexOf(lines) <==> exists i :: NamedAt(lines, i, name)
  {
    if lines != [] {
      var init := lines[..|lines| - 1];
      NameIndexKeys(init, name);
      if name in NameIndexOf(lines) {
        if name in NameIndexOf(init) {
          var i :| NamedAt(init, i, name);
          assert NamedAt(lines, i, name);
        } else {
          assert NamedAt(lines, |lines| - 1, name);
        }
      } else {
        forall i | 0 <= i < |lines|
          ensures !NamedAt(lines, i, name)
        {
          if i < |init| {
            assert lines[i] == init[i];
            assert !NamedAt(init, i, name);
          }
        }
      }
    }
  }

  /** The id stored for a name is the one on the last line that names it. */
  lemma {:induction false} NameIndexLastWins(lines: seq<string>, i: nat)
    requires i < |lines| && LineEntry(lines[i]).Some?
    requires forall j :: i < j < |lines| ==> LineEntry(lines[j]).None? || LineEntry(lines[j]).value.0 != LineEntry(lines[i]).value.0
    ensures LineEntry(lines[i]).value.0 in NameIndexOf(lines)
    ensures NameIndexOf(lines)[LineEntry(lines[i]).value.0] == LineEntry(lines[i]).value.1
  {
    if i < |lines| - 1 {
      var init := lines[..|lines| - 1];
      assert init[i] == lines[i];
      forall j | i < j < |init|
        ensures LineEntry(init[j]).None? || LineEntry(init[j]).value.0 != LineEntry(init[i]).value.0
      {
        assert init[j] == lines[j];
      }
      NameIndexLastWins(init, i);
    }
  }

  /* ------------------------------------------------------------ id lookups */

  /** `id & 0x1FFFFFFF` on a u32, as arithmetic: the low 29 bits. */
  function Extended(id: u32): (e: u32)
    ensures e < 0x2000_0000
  {
    id % 0x2000_0000
  }

  /** Masking an id that already fits in 29 bits changes nothing, so masking twice is masking once. */
  lemma ExtendedIdempotent(id: u32)
    ensures id < 0x2000_0000 ==> Extended(id) == id
    ensures Extended(Extended(id)) == Extended(id)
  {
  }

  /** The ids for the names the index knows, masked, in input order. */
  function CanIdsOf(index: map<string, u32>, names: seq<string>): seq<u32>
  {
    if names == [] then []
    else
      var ids := CanIdsOf(index, names[..|names| - 1]);
      var name := names[|names| - 1];
      if name in index then ids + [Extended(index[name])] else ids
  }

  /** The index built by `CanUtils::new`; the socket and the signal library are not part of this value. */
  datatype CanUtils = CanUtils(hashMsg: map<string, u32>)
  {
    /** get_can_ids_from_can_names. */
    method GetCanIds(names: seq<string>) returns (ids: seq<u32>)
      ensures ids == CanIdsOf(hashMsg, names)
    {
      ids := [];
      var i := 0;
      while i < |names|
        invariant 0 <= i <= |names|
        invariant ids == CanIdsOf(hashMsg, names[..i])
      {
        assert names[..i + 1][..i] == names[..i];
        var name := names[i];
        if name in hashMsg {
          ids := ids + [Extended(hashMsg[name])];
        }
        i := i + 1;
      }
      assert names[..i] == names;
    }

    /** get_can_id_from_can_name: the masked id, or 0 for a name the index does not know. */
    function GetCanId(name: string): (id: u32)
      ensures name in hashMsg ==> id == Extended(hashMsg[name]) && id < 0x2000_0000
      ensures name !in hashMsg ==> id == 0
    {
      if name in hashMsg then Extended(hashMsg[name]) else 0
    }

    /** set_can_filters_from_can_names: the filter list, or None when it is empty and no filter is installed. */
    method SetCanFilters(names: seq<string>) returns (installed: Option<seq<CanFilter>>)
      ensures var fs := FiltersOf(hashMsg, names);
        installed == if fs == [] then None else Some(fs)
    {
      var filters: seq<CanFilter> := [];
      var i := 0;
      while i < |names|
        invariant 0 <= i <= |names|
        invariant filters == FiltersOf(hashMsg, names[..i])
      {
        assert names[..i + 1][..i] == names[..i];
        var name := names[i];
        if name in hashMsg {
          filters := filters + [CanFilter(Extended(hashMsg[name]), EXTENDED_MASK)];
        }
        i := i + 1;
      }
      assert names[..i] == names;
      if filters != [] {
        installed := Some(filters);
      } else {
        installed := None;
      }
    }
  }

  /** A socket filter: accept frames whose id, under mask, equals id. */
  datatype CanFilter = CanFilter(id: u32, mask: u32)

  /** One filter per known name, in input order. */
  function FiltersOf(index: map<string, u32>, names: seq<string>): seq<CanFilter>
  {
    if names == [] then []
    else
      var fs := FiltersOf(index, names[..|names| - 1]);
      var name := names[|names| - 1];
      if name in index then fs + [CanFilter(Extended(index[name]), EXTENDED_MASK)] else fs
  }

  /** Known names map to masked ids below 2^29, unknown names are dropped, and no more ids come out than names go in. */
  lemma {:induction false} CanIdsBounds(index: map<string, u32>, names: seq<string>)
    ensures |CanIdsOf(index, names)| <= |names|
    ensures forall k :: 0 <= k < |CanIdsOf(index, names)| ==> CanIdsOf(index, names)[k] < 0x2000_0000
    ensures (forall k :: 0 <= k < |names| ==> names[k] in index) ==> |CanIdsOf(index, names)| == |names|
  {
    if names != [] {
      var init := names[..|names| - 1];
      CanIdsBounds(index, init);
      if forall k :: 0 <= k < |names| ==> names[k] in index {
        assert forall k :: 0 <= k < |init| ==> init[k] == names[k];
      }
    }
  }

  /** Lists of names are looked up one by one: the ids of a concatenation are the concatenated ids. */
  lemma {:induction false} CanIdsAppend(index: map<string, u32>, xs: seq<string>, ys: seq<string>)
    ensures CanIdsOf(index, xs + ys) == CanIdsOf(index, xs) + CanIdsOf(index, ys)
    decreases |ys|
  {
    if ys == [] {
      assert xs + ys == xs;
    } else {
      assert (xs + ys)[..|xs + ys| - 1] == xs + ys[..|ys| - 1];
      CanIdsAppend(index, xs, ys[..|ys| - 1]);
    }
  }

  /** The list lookup and the single lookup agree: one known name gives exactly get_can_id's value. */
  lemma CanIdsSingle(utils: CanUtils, name: string)
    ensures CanIdsOf(utils.hashMsg, [name]) == if name in utils.hashMsg then [utils.GetCanId(name)] else []
  {
    assert [name][..0] == [];
  }

  /** The filter list is the id list, each id paired with the mask 0x1FFFFFFF. */
  lemma {:induction false} FiltersMatchIds(index: map<string, u32>, names: seq<string>)
    ensures |FiltersOf(index, names)| == |CanIdsOf(index, names)|
    ensures forall k :: 0 <= k < |FiltersOf(index, names)| ==>
      FiltersOf(index, names)[k] == CanFilter(CanIdsOf(index, names)[k], EXTENDED_MASK)
  {
    if names != [] {
      FiltersMatchIds(index, names[..|names| - 1]);
    }
  }

  /* ------------------------------------------------------------ frame decode */

  /** A received frame: the raw id word and the data bytes. */
  datatype CanFrame = CanFrame(idWord: u32, data: seq<u8>)

  /** The bytes handed to the decoder: a payload shorter than 8 bytes is zero-padded to 8. */
  function Pad(data: seq<u8>): (msg: seq<u8>)
    ensures |data| < 8 ==> |msg| == 8 && msg[..|data|] == data && forall j :: |data| <= j < 8 ==> msg[j] == 0
    ensures |data| >= 8 ==> msg == data
  {
    if |data| < 8 then data + seq(8 - |data|, _ => 0) else data
  }

  /** The signals of one frame: each name of the list that has a descriptor and decodes is inserted, later ones overwriting. */
  function DecodedSignals<D, V>(signals: seq<string>, spn: string -> Option<D>, parse: (D, seq<u8>) -> Option<V>, msg: seq<u8>): map<string, V>
  {
    if signals == [] then map[]
    else
      var m := DecodedSignals(signals[..|signals| - 1], spn, parse, msg);
      var s := signals[|signals| - 1];
      match spn(s)
        case None => m
        case Some(info) =>
          match parse(info, msg)
            case None => m
            case Some(v) => m[s := v]
  }

  /** The decode of one frame, looked up by the raw id word with no masking. */
  function FrameSignals<D, V>(frame: CanFrame, index: map<u32, seq<string>>, spn: string -> Option<D>, parse: (D, seq<u8>) -> Option<V>): map<string, V>
  {
    if frame.idWord in index then DecodedSignals(index[frame.idWord], spn, parse, Pad(frame.data)) else map[]
  }

  /**
   * get_messages: read one frame; a read error is returned, otherwise the
   * signals of the frame's id are decoded from the (padded) payload.
   */
  method GetMessages<D, V>(frame: Result<CanFrame, CanError>, index: map<u32, seq<string>>,
                           spn: string -> Option<D>, parse: (D, seq<u8>) -> Option<V>)
    returns (r: Result<map<string, V>, CanError>)
    ensures frame.Err? ==> r == Err(frame.error)
    ensures frame.Ok? ==> r == Ok(FrameSignals(frame.value, index, spn, parse))
  {
    if frame.Err? {
      return Err(frame.error);
    }
    var f := frame.value;
    var result: map<string, V> := map[];
    var padded := new int[8](_ => 0);
    if f.idWord in index {
      var signals := index[f.idWord];
      var i := 0;
      while i < |signals|
        invariant 0 <= i <= |signals|
        invariant result == DecodedSignals(signals[..i], spn, parse, Pad(f.data))
        invariant forall j :: |f.data| <= j < 8 ==> padded[j] == 0
      {
        assert signals[..i + 1][..i] == signals[..i];
        var signal := signals[i];
        var info := spn(signal);
        if info.Some? {
          var msg: seq<u8>;
          if |f.data| < 8 {
            var k := 0;
            while k < |f.data|
              invariant 0 <= k <= |f.data|
              invariant forall j :: 0 <= j < k ==> padded[j] == f.data[j]
              invariant forall j :: |f.data| <= j < 8 ==> padded[j] == 0
            {
              padded[k] := f.data[k];
              k := k + 1;
            }
            assert padded[..] == Pad(f.data);
            msg := padded[..];
          } else {
            msg := f.data;
          }
          var value := parse(info.value, msg);
          if value.Some? {
            result := result[signal := value.value];
          }
        }
        i := i + 1;
      }
      assert signals[..i] == signals;
    }
    r := Ok(result);
  }

  /** A signal is in the result iff the id's list names it, it has a descriptor and it decodes; its value is the decoder's. */
  lemma {:induction false} DecodedSignalsIff<D, V>(signals: seq<string>, spn: string -> Option<D>, parse: (D, seq<u8>) -> Option<V>, msg: seq<u8>, s: string)
    ensures s in DecodedSignals(signals, spn, parse, msg) <==>
      s in signals && spn(s).Some? && parse(spn(s).value, msg).Some?
    ensures s in DecodedSignals(signals, spn, parse, msg) ==>
      DecodedSignals(signals, spn, parse, msg)[s] == parse(spn(s).value, msg).value
  {
    if signals != [] {
      var init := signals[..|signals| - 1];
      DecodedSignalsIff(init, spn, parse, msg, s);
      assert signals == init + [signals[|signals| - 1]];
      assert s in signals <==> s in init || s == signals[|signals| - 1];
    }
  }

  /** A frame whose id the index does not list decodes to the empty map; any result's keys come from the id's list. */
  lemma FrameSignalsKeys<D, V>(frame: CanFrame, index: map<u32, seq<string>>, spn: string -> Option<D>, parse: (D, seq<u8>) -> Option<V>)
    ensures frame.idWord !in index ==> FrameSignals(frame, index, spn, parse) == map[]
    ensures forall s :: s in FrameSignals(frame, index, spn, parse) ==> frame.idWord in index && s in index[frame.idWord]
  {
    if frame.idWord in index {
      forall s | s in FrameSignals(frame, index, spn, parse)
        ensures s in index[frame.idWord]
      {
        DecodedSignalsIff(index[frame.idWord], spn, parse, Pad(frame.data), s);
      }
    }
  }
}
