# utils-rs core rules, modelled in Dafny

This project models the sequential logic inside six Ion-Mobility utils-rs crates and proves properties of it:

- **IcomMsg** (`icom_msg.dfy`) is the ICom packet codec `IONICOMPacketType`.
  - A 259-byte frame: a little-endian u16 `PayloadLen`, a 256-byte `Payload` and a CRC byte.
  - The CRC is table-driven CRC-8: polynomial 0x07, initial value 0, no reflection, no final XOR.
  - It covers building, serialising, parsing, CRC verification, and the 128-byte function slots that `set_func` overwrites in place.
  - The packet is a `class` over a 256-byte `array`. The datatype `Packet` is its value, and the specification functions are stated over it.
- **CanTool** (`can_tool.dfy`) covers `CanUtils`:
  - the name index built from a DBC file's `BO_ <id> <name>:` lines;
  - name-to-extended-id lookups and filter lists, masked with 0x1FFFFFFF;
  - the per-frame decode loop of `get_messages`.
- **SpiConn** (`spi_conn.dfy`) is `IonSpiConn::hexdump`. It returns the lines it would print.
- **ModemCli** (`modem_cli.dfy`) covers the `IonModemCli` ready latch, modem-path detection, and the reading of the ModemManager replies (location mask, modem state, NMEA text).
- **WifiTools** (`wifi_tools.dfy`) covers:
  - the security class of an access point and the scan map;
  - the stored-connection map;
  - how `connect_wifi` finds an existing connection and edits its settings.
- **Logging** (`logging.dfy`) covers the `MyLogging` values and `init_logger`'s choice of log level.
- **Decimal** (`decimal.dfy`) holds `u32::from_str` and `u64::to_string`. CanTool and WifiTools use it.
- **Wrappers** (`wrappers.dfy`) holds `Option` and `Result`.

Every D-Bus, socket, SPI or file interaction is replaced by its outcome, passed in as a parameter:

- a reply item list;
- a managed-object list;
- a line read or read error;
- a frame or read error;
- a YAML outcome.

Rust's `&` masks on unsigned and on signed integers are written arithmetically (`id % 0x2000_0000`, `m % 8 >= 4`). Dafny's `%` never returns a negative number, so on an `i32` these expressions test the two's-complement bits, as `&` does. `ModemCli.HasBit2Mask`, `ModemCli.HasBit3Mask` and `ModemCli.HasBit3Word` prove each test equal to `&` on the value's low byte as a `bv8`. Rust `HashMap`s become Dafny `map`s. When the source iterates over a `HashMap`, the model either takes the iteration order as a parameter or chooses an element with `:|`.

## Model

| member | source | states |
|---|---|---|
| IcomMsg.CrcTableEntry | icommsg/src/icom_msg.rs:14-37 | every entry of CRC_TABLE is the MSB-first remainder of its index divided by x^8+x^2+x+1 |
| IcomMsg.CrcRowsShape | icommsg/src/icom_msg.rs:14-37 | CRC_TABLE has exactly 256 entries (16 rows of 16) |
| IcomMsg.CrcSnoc | icommsg/src/icom_msg.rs:40-48 | crc8 of the empty message is 0; crc8(xs ++ [b]) == CRC_TABLE[crc8(xs) ^ b] |
| IcomMsg.CrcFromAppend | icommsg/src/icom_msg.rs:40-48 | the CRC of a concatenation folds the second part starting from the first part's CRC |
| IcomMsg.CrcResidue | icommsg/src/icom_msg.rs:40-48 | appending a message's CRC byte to it gives CRC 0 |
| IcomMsg.Crc8 | icommsg/src/icom_msg.rs:40-48 | the table-driven accumulator loop computes the bitwise CRC register fold |
| IcomMsg.CrcFromZeros | icommsg/src/icom_msg.rs:40-48 | zero bytes keep a zero register at zero |
| IcomMsg.IonIcomPacket.NewFrom | icommsg/src/icom_msg.rs:51-70 | copies txdata into a zeroed 256-byte payload; PayloadLen = \|txdata\|; CRC over the two length bytes and all 256 payload bytes |
| IcomMsg.NewFromVerifiesIff | icommsg/src/icom_msg.rs:51-70 | the payload starts with txdata; the packet verifies iff folding the zero padding into the CRC of the length bytes plus txdata leaves it unchanged |
| IcomMsg.NewFromFullRoundTrip | icommsg/src/icom_msg.rs:51-70 | with a 256-byte txdata the new packet verifies and survives to_byte_array then from_byte_array |
| IcomMsg.NewFromShortPayloadFailsCrc | icommsg/src/icom_msg.rs:61 | for a concrete 255-byte txdata, new_from's packet fails verify_crc and from_byte_array refuses it |
| IcomMsg.NewFromCorrectedRoundTrip | icommsg/src/icom_msg.rs:213-226 | a CRC taken over the length bytes and txdata only always verifies, and round-trips when txdata is non-empty |
| IcomMsg.IonIcomPacket.NewDummy | icommsg/src/icom_msg.rs:72-82 | length 0, an all-zero payload, CRC 0 |
| IcomMsg.DummyIsRefused | icommsg/src/icom_msg.rs:72-82 | the dummy packet's wire image is refused as a dummy package |
| IcomMsg.IonIcomPacket.GetFunc | icommsg/src/icom_msg.rs:108-123 | returns the get_func specification result for the packet's current value |
| IcomMsg.GetFuncSpec | icommsg/src/icom_msg.rs:108-123 | Ok iff the slot lies inside PayloadLen and its first byte is non-zero; the result is exactly the 128 slot bytes; otherwise "out of bounds" when the slot overruns PayloadLen, else "empty" |
| IcomMsg.IonIcomPacket.SetFunc | icommsg/src/icom_msg.rs:125-148 | overwrites the payload array in place; the new value is the specification result; on Err the packet is unchanged |
| IcomMsg.SetFuncSpec | icommsg/src/icom_msg.rs:125-148 | Err iff fncode*128 + \|data\| > 256 or \|data\| > 128; on Ok exactly the window holds data, nothing else moves, PayloadLen is 256 and the CRC verifies |
| IcomMsg.SpliceFacts | icommsg/src/icom_msg.rs:135 | writing data into a window keeps the length, puts data in the window and leaves every other byte |
| IcomMsg.SetThenGetFunc | icommsg/src/icom_msg.rs:108-148 | a full slot written by set_func, with a non-zero first byte, is read back unchanged by get_func |
| IcomMsg.IonIcomPacket.ToByteArray | icommsg/src/icom_msg.rs:150-164 | the fresh buffer is the 259-byte wire image of the packet |
| IcomMsg.EncodeLayout | icommsg/src/icom_msg.rs:150-164 | byte 0 = PayloadLen & 0xFF, byte 1 = PayloadLen >> 8, bytes 2..258 = Payload, byte 258 = Crc |
| IcomMsg.IonIcomPacket.PayloadToArray | icommsg/src/icom_msg.rs:166-173 | a fresh array equal to the payload |
| IcomMsg.IonIcomPacket.FromByteArray | icommsg/src/icom_msg.rs:176-210 | the error of the decode specification, or a fresh packet whose value is the decoded packet |
| IcomMsg.DecodeRejects | icommsg/src/icom_msg.rs:176-210 | refusals in source order: length != 259, then length 0, then length > 256, then a CRC mismatch |
| IcomMsg.LenBytesRoundTrip | icommsg/src/icom_msg.rs:182 | `from_le_bytes` of the two length bytes gives the length back |
| IcomMsg.LenBytesOfBytes | icommsg/src/icom_msg.rs:154-155 | the length bytes of a little-endian length read from two bytes are those two bytes |
| IcomMsg.EncodeDecode | icommsg/src/icom_msg.rs:150-210 | a packet with length 1..256 whose CRC verifies decodes back to itself |
| IcomMsg.DecodeEncode | icommsg/src/icom_msg.rs:150-210 | whatever decodes is well formed, verifies, and encodes back to exactly the bytes received |
| IcomMsg.IonIcomPacket.VerifyCrc | icommsg/src/icom_msg.rs:213-226 | false when PayloadLen > 256; else true iff the CRC over the length bytes and Payload[..PayloadLen] equals Crc |
| Decimal.DecimalStringValue | cantool/src/can_tool.rs:33 | the decimal spelling of n reads back as n |
| Decimal.DecimalStringCanonical | wifitools/src/lib.rs:216 | `to_string` starts with '0' only for zero |
| Decimal.ParseDecimalString | cantool/src/can_tool.rs:33 | every u32 printed in decimal parses back to itself |
| Decimal.ParseU32Iff | cantool/src/can_tool.rs:33 | `parse::<u32>` succeeds exactly on an optional '+' followed by digits whose value is below 2^32 |
| CanTool.TokensWellFormed | cantool/src/can_tool.rs:31 | `split_whitespace` yields only non-empty tokens without whitespace |
| CanTool.BoLineFirstToken | cantool/src/can_tool.rs:30-31 | a line starting with "BO_ " has "BO_" as its first token |
| CanTool.TrimEndColons | cantool/src/can_tool.rs:34 | the result is the longest prefix not ending in ':'; every character removed is ':' |
| CanTool.ScanDbc | cantool/src/can_tool.rs:21-39 | a read error gives Err; otherwise the map is the name index of the line texts |
| CanTool.LineEntryIff | cantool/src/can_tool.rs:30-36 | a line contributes exactly when it starts with "BO_ ", has more than 2 tokens and token 1 parses as u32; it then contributes (token 2 without trailing ':', id) |
| CanTool.NameIndexKeys | cantool/src/can_tool.rs:28-39 | a name is in the index iff some contributing line names it |
| CanTool.NameIndexLastWins | cantool/src/can_tool.rs:35 | among lines naming the same message, the last one decides the stored id |
| CanTool.ExtendedIdempotent | cantool/src/can_tool.rs:53 | masking leaves a 29-bit id unchanged, so masking twice is masking once |
| CanTool.CanUtils.GetCanIds | cantool/src/can_tool.rs:49-65 | the loop pushes the masked id of each known name in order and skips unknown names |
| CanTool.CanIdsBounds | cantool/src/can_tool.rs:49-65 | no more ids than names; all below 2^29; one id per name when all names are known |
| CanTool.CanIdsAppend | cantool/src/can_tool.rs:49-65 | the ids of a concatenation of name lists are the concatenation of the ids |
| CanTool.CanIdsSingle | cantool/src/can_tool.rs:49-81 | get_can_ids of one name is get_can_id's answer when the name is known, and empty otherwise |
| CanTool.CanUtils.GetCanId | cantool/src/can_tool.rs:68-81 | a known name gives its id masked with 0x1FFFFFFF, an unknown name gives 0 |
| CanTool.CanUtils.SetCanFilters | cantool/src/can_tool.rs:83-102 | the filter list that would be installed, or None when it is empty and nothing is installed |
| CanTool.FiltersMatchIds | cantool/src/can_tool.rs:83-102 | filter k is (id k of get_can_ids, mask 0x1FFFFFFF) |
| CanTool.Pad | cantool/src/can_tool.rs:112-124 | data shorter than 8 bytes is zero-padded to exactly 8 bytes; 8 or more bytes pass unchanged |
| CanTool.GetMessages | cantool/src/can_tool.rs:104-140 | a read error is returned; otherwise the result is the decoded signals of the frame's id |
| CanTool.DecodedSignalsIff | cantool/src/can_tool.rs:114-130 | a signal is in the result iff it is listed for the id, has a descriptor and decodes; its value is the decoder's |
| CanTool.FrameSignalsKeys | cantool/src/can_tool.rs:109-114 | an id the index does not list gives the empty map; every key belongs to the id's signal list |
| SpiConn.Hex2RoundTrip | spiconn/src/spi_conn.rs:44 | `{:02x}` of a byte is two lowercase hex digits that read back as the byte |
| SpiConn.Hex8Exact | spiconn/src/spi_conn.rs:40 | `{:08x}` of an offset below 2^32 is exactly 8 digits that read back as the offset |
| SpiConn.FormatLine | spiconn/src/spi_conn.rs:40-64 | the three inner loops build the line: offset, ": ", hex bytes, padding, ASCII column between bars |
| SpiConn.Hexdump | spiconn/src/spi_conn.rs:34-66 | the lines of the first min(len, \|data\|) bytes, one per 16-byte chunk |
| SpiConn.ChunksCoverData | spiconn/src/spi_conn.rs:38 | byte j lies in chunk j / 16 at j % 16; every chunk but the last has 16 bytes |
| SpiConn.HexLineLayout | spiconn/src/spi_conn.rs:40-64 | where each part of a line sits: 8 offset digits reading back as the offset, ": ", 3 characters per byte, spaces up to column 58, '\|', one ASCII character per byte, '\|' |
| SpiConn.HexBytesLayout | spiconn/src/spi_conn.rs:43-45 | byte k occupies hex-area characters 3k and 3k+1, followed by a space |
| SpiConn.AsciiColumn | spiconn/src/spi_conn.rs:56-63 | graphic bytes and the space appear as themselves, every other byte as '.' |
| SpiConn.DumpShape | spiconn/src/spi_conn.rs:36-38 | ceil(n / 16) lines for n = min(len, \|data\|); line i shows chunk i, and its 8-digit offset field reads back as 16 i |
| ModemCli.IonModemCli.Default | mmcli/src/mmcli.rs:21-30 | destination "org.freedesktop.ModemManager1", object "/org/freedesktop/ModemManager1", empty modem, not ready |
| ModemCli.IonModemCli.New | mmcli/src/mmcli.rs:33-40 | stores the four arguments unchanged |
| ModemCli.IonModemCli.ModemPathDetection | mmcli/src/mmcli.rs:71-92 | a failed object-manager call is an error; otherwise the path of the first object with the Modem interface, or "" |
| ModemCli.FirstModemSpec | mmcli/src/mmcli.rs:84-91 | "" when no object has the Modem interface; otherwise the path of the first object that has it |
| ModemCli.FirstModemEmptyIff | mmcli/src/mmcli.rs:84-91 | with non-empty object paths (D-Bus paths start with '/'), the result is "" iff no object has the Modem interface |
| ModemCli.IonModemCli.ModemPreparing | mmcli/src/mmcli.rs:42-50 | true iff detection succeeds, storing the detected path; the other fields are unchanged |
| ModemCli.IonModemCli.IsReady | mmcli/src/mmcli.rs:218-220 | returns the latch and changes nothing |
| ModemCli.IonModemCli.WaitingForReady | mmcli/src/mmcli.rs:222-227 | when already ready: unchanged, returns true. Otherwise ready becomes true iff the call succeeds (even with no modem) and modem becomes the detected path. Returns the new latch |
| ModemCli.LocationEnabledIff | mmcli/src/mmcli.rs:94-112 | true iff the call succeeds and the first reply item is Variant(UInt32 m) with m & 4 != 0 |
| ModemCli.ModemEnabledIff | mmcli/src/mmcli.rs:114-132 | true iff the call succeeds and the first reply item is Variant(Int32 m) with m & 8 != 0 |
| ModemCli.EnabledFirstItemOnly | mmcli/src/mmcli.rs:94-132 | only the first reply item matters; a failed call or an empty reply reads as disabled |
| ModemCli.HasBit2Mask | mmcli/src/mmcli.rs:103 | the model's test of the location mask holds exactly when `b & 4 != 0`, b being the mask's low byte |
| ModemCli.HasBit3Mask | mmcli/src/mmcli.rs:122 | the model's test of the modem state holds exactly when `b & 8 != 0`, b being the value's low byte |
| ModemCli.HasBit3Word | mmcli/src/mmcli.rs:121-122 | on an i32 state, negative ones included, the test is `& 8` on the low byte of its 32-bit two's-complement word |
| ModemCli.LocationEnabledMask | mmcli/src/mmcli.rs:94-112 | a reply led by Variant(UInt32 mask) reads as location enabled exactly when `mask & 4 != 0` |
| ModemCli.ModemEnabledMask | mmcli/src/mmcli.rs:114-132 | a reply led by Variant(Int32 state) reads as modem enabled exactly when `state & 8 != 0` on its two's-complement word |
| ModemCli.SignalQuality | mmcli/src/mmcli.rs:134-137 | always 0 |
| ModemCli.IonModemCli.GetLocation | mmcli/src/mmcli.rs:171-216 | the nested loops compute the last-NMEA specification over the GetLocation reply, gated by the location check |
| ModemCli.LastNmeaAppend | mmcli/src/mmcli.rs:193-208 | scanning a concatenation scans the second part starting from where the first left `nmea_str` |
| ModemCli.LastNmeaIsLast | mmcli/src/mmcli.rs:196-205 | the text under key UInt32 4 of the last NMEA entry wins |
| ModemCli.LastNmeaNone | mmcli/src/mmcli.rs:172-208 | with no NMEA entry `nmea_str` keeps its initial value |
| ModemCli.LocationEmptyCases | mmcli/src/mmcli.rs:171-216 | "" when location is disabled, when the call fails, or when no entry carries NMEA |
| ModemCli.LocationIsLastNmea | mmcli/src/mmcli.rs:171-216 | with location enabled and the call answered, the result is the last NMEA entry's text |
| WifiTools.ClassifyIff | wifitools/src/lib.rs:103-115 | for each class, the flag words that produce it: rsn != 0 gives WPA2/3; else wpa != 0 gives WPA; else flags & 1 gives WEP; else Open |
| WifiTools.ClassifyPrivacyBitOnly | wifitools/src/lib.rs:109 | of `flags`, only bit 0 matters |
| WifiTools.ScanWifi | wifitools/src/lib.rs:92-125 | one insert per access point, keyed by SSID, in list order |
| WifiTools.ScanMapHasSsid | wifitools/src/lib.rs:116-124 | every access point's SSID is a key |
| WifiTools.ScanMapKeys | wifitools/src/lib.rs:116-124 | every key is some access point's SSID |
| WifiTools.ScanMapLastWins | wifitools/src/lib.rs:116-124 | a repeated SSID replaces the earlier entry: the last access point with the SSID decides it |
| WifiTools.ExtractString | wifitools/src/lib.rs:135-141 | Some exactly for string values, holding the string |
| WifiTools.ExtractU64 | wifitools/src/lib.rs:144-150 | Some exactly for u64 values, holding the number |
| WifiTools.WirelessCfgFound | wifitools/src/lib.rs:174-186 | the loop over the sections, in the map's unspecified order, finds Wi-Fi iff connection.type is the string "802-11-wireless" |
| WifiTools.GetStoredWifi | wifitools/src/lib.rs:166-235 | one insert per Wi-Fi connection, in list order |
| WifiTools.StoredInfoFields | wifitools/src/lib.rs:208-233 | security is always Open and psk ""; created is "No timestamp found", or decimal digits that read back as the timestamp |
| WifiTools.StoredOfHasKey | wifitools/src/lib.rs:203-233 | every Wi-Fi connection leaves an entry under its id, or under "No ID found" |
| WifiTools.StoredOfKeys | wifitools/src/lib.rs:174-233 | every entry comes from a Wi-Fi connection; other connections leave no trace |
| WifiTools.StoredOfLastWins | wifitools/src/lib.rs:226-233 | the last Wi-Fi connection with a given key decides its entry |
| WifiTools.ExistingMatchIff | wifitools/src/lib.rs:273-281 | a match iff id equals the SSID, or interface-name equals the interface. A panic iff id is missing, or id differs and interface-name is missing |
| WifiTools.FirstExistingSpec | wifitools/src/lib.rs:268-282 | Found(k) iff connection k matches and every earlier one neither matched nor panicked; NotFound iff no connection matched or panicked |
| WifiTools.FindExisting | wifitools/src/lib.rs:268-282 | the loop stops at the first match or panic |
| WifiTools.EditSettings | wifitools/src/lib.rs:287-308 | the in-place edit computes the edit specification |
| WifiTools.EditedSections | wifitools/src/lib.rs:287-308 | With a password: key-mgmt "wpa-psk" and psk are set and the other security keys are kept. Without one: the security section is untouched. Always: ipv4.method is "auto", the other ipv4 keys are kept, and no other section changes |
| WifiTools.EditedIdempotent | wifitools/src/lib.rs:287-308 | editing twice gives the same settings as editing once |
| WifiTools.NewConnectionFound | wifitools/src/lib.rs:320-349 | an added connection is Wi-Fi, matches the next search for the same SSID, and is stored under that SSID |
| WifiTools.ConnectWifi | wifitools/src/lib.rs:255-362 | an update of the first matching connection with the edited settings; else a new connection; a panic in the search stops everything |
| Logging.ArgsLevelIff | logging/src/logging.rs:70-79 | Debug iff "--debug" is an argument; else Info iff "--info"; else Warn iff "--warning"; otherwise Off |
| Logging.ArgsLevelIgnoresOthers | logging/src/logging.rs:70-79 | only whole arguments equal to a flag count; other arguments never change the level |
| Logging.MyLogging.Default | logging/src/logging.rs:23-31 | "my_logging.log", 10 * 1024 * 1024 bytes, Info |
| Logging.MyLogging.New | logging/src/logging.rs:34-40 | built from the three arguments; the receiver plays no part |
| Logging.MyLogging.FallbackLevel | logging/src/logging.rs:101-103 | Off becomes the default level; any other level is kept |
| Logging.MyLogging.InitLogger | logging/src/logging.rs:67-124 | a YAML file that loads wins; an absent or failing file gives the built-in configuration at the fallback level |
| Logging.FallbackRootLevel | logging/src/logging.rs:70-116 | the built-in root level is the flag's level, or the default level when no flag is given; never Off unless the default is Off |
| Logging.DefaultLoggerLevel | logging/src/logging.rs:23-116 | with the defaults and no flag, the built-in configuration logs at Info |

## Left out

- D-Bus, SocketCAN, SPI/GPIO and file access, together with their `?` error plumbing, are modelled only as reply values.
  - Left out: `get_modem_properties`, `setup_modem_enable`, `setup_location`, connection activation and `update`, `get_wificmd_pack`, `send_wificmd_pack`, `CanSocket::open`, `PgnLibrary::from_dbc_file`, SPI `xfer`.
- `PgnLibrary` internals are uninterpreted parameters: the signal index, `get_spn` and `parse_message`. Its `f32` values are an abstract type.
- `get_signal_strength` is left out because it converts floats.
- `is_dummy` is not modelled: it does not compile (no `self`, and a field name that does not exist).
- `dump` and every `println!`/`print!` are left out. `hexdump` returns its lines instead of printing them.
- The `log` macros are left out: `info!`, `error!`, `trace!`, `warn!` and `debug!` produce log output only. Examples are cantool/src/can_tool.rs:55-60, 72-78, 89-95, 110 and 134, and the `trace!` calls in mmcli.rs.
- Sleeps and polling loops are left out:
  - the ready-line poll of `xfer`;
  - the retry of `scan_wifi` while the access-point list is empty (the model scans one given list; called on an empty list it returns the empty map, which the source never does).
- log4rs configuration building (`set_default_log_setting`, `init_file`, `init_config`) is reduced to the root level chosen. `env::args` and the `log4rs.yml` existence check are parameters.
- `.unwrap()` and `.expect()` panics, except where they decide the outcome:
  - `String::from_utf8(ssid).unwrap()` is not modelled; the SSID arrives already decoded;
  - `set_filters(...).unwrap()` is not modelled;
  - the `expect("D-Bus connection failed")` of `get_location` is not modelled;
  - the `.expect("REASON")` calls of the connection search are modelled as `Panicked`.
- IcomMsg.IonIcomPacket.NewFrom: requires `|txdata| <= 256`. A longer `txdata` makes Rust's slice copy panic, and the model does not cover that panic.
- `u16`, `u32` and `u64` are bounded subset types of `int`. No operation in the modelled code wraps around, except `txdata.len() as u16`, which the 256-byte bound rules out.
- WifiTools.NewConnection: `ssid.as_bytes()` is not real UTF-8. Only characters below 0x100 carry over as themselves, and others become 0.
- WifiTools.ExtractString: only string values are accepted. zvariant's `<&str>::try_from` also accepts object paths and signatures, and those kinds are `OtherValue` here.
- WifiTools.ConnectWifi: edits the settings map that the connection search read. `connect_wifi` calls `get_settings()` a second time before editing (wifitools/src/lib.rs:285). The model assumes both calls return the same map.
- `get_stored_wifi` reads `key-mgmt` but never uses it, so the model ignores it.
- The `object` field of `IonModemCli` is called `objectPath`, because `object` is a Dafny keyword.

## Findings

| source | as written | input that shows it | evidently intended | confidence | as-written member | corrected member |
|---|---|---|---|---|---|---|
| icommsg/src/icom_msg.rs:61 | `new_from` computes the CRC over all 256 payload bytes, zero padding included. `verify_crc` (icom_msg.rs:220) covers only the first `PayloadLen` bytes. A packet built by `new_from` from fewer than 256 bytes can therefore fail `verify_crc`, and `from_byte_array` then refuses its own wire image. | `txdata = [0xD7] ++ 253 zero bytes ++ [0x01]` (255 bytes). `verify_crc` computes 0x07, but the stored CRC is 0x15. | the CRC covers the length bytes and the first `PayloadLen` payload bytes, as `verify_crc` checks | not executed | IcomMsg.NewFromShortPayloadFailsCrc | IcomMsg.NewFromCorrectedRoundTrip |
