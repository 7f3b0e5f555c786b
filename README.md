# iM284A host stack — a Dafny model

This project models the core of the host-side C++ stack for the IMST iM284A
radio module. A host talks to the module over a serial line using HCI
messages. An HCI message is a service access point id, a message id, an
optional status byte and a payload. A CRC-16/X.25 trailer protects it, and
SLIP framing carries it on the wire. The modelled pieces are:

- `ByteArrays`: the fixed-capacity byte buffer every layer uses. It has a
  capacity, a fill count, saturating appends and hex decoding.
- `Crc16`: the table-driven CRC-16/X.25. It has initial value 0xFFFF,
  polynomial 0x8408, a complemented trailer and the check residue 0x0F47.
- `Slip`: the byte-at-a-time SLIP decoder. Its states are Initial, InFrame
  and EscState. It has a frame encoder as the decoder's partner.
- `UInt16`: the uint16_t truncation the dictionary's arithmetic and `aMap::size` rely on.
- `DictionaryScan` and `Dictionaries`: the packed key/value store that
  decoders fill. Records are `key 0 value 0` in one `ByteArray`. The store
  has the helpers `skipNzeros` and `scan0FromHere`, the accessors, append,
  contains, remove and clear.
- `SerialMessages`: the HCI message, with its header fields, little-endian
  32-bit fields, and CRC append, check and remove.
- `ServiceAccessPoints`: the registry of service access points. New ones
  are pushed at the head of a list. It has the dispatch of a received
  message by SAP id after the CRC check, and the send path: CRC, wake-up
  bytes, SLIP encoding.
- `DeviceManagement`: the device-management SAP. It has the message-id to
  handler table and the event-name table, the per-message decoders with
  their length guards and status texts, and the composition of the
  set-system-options request.
- `AMaps`: the `aMap` wrapper over an ordered map, whose lookup has a
  default.
- `CommandTables`: `findItem`, the first-match key search over a menu
  table.

Objects whose fields the C++ updates in place are classes with `modifies`
frames:

- `ByteArray` keeps its storage in an `array<bv8>`;
- `Dictionary`;
- `SlipDecoder`;
- `SerialMessage`;
- the SAP `Registry`;
- `AMap`.

Each method is proved against a specification function on values. For
example, `Buf` is the storage plus fill count, `Decoding` is the decoder
state, output and completed frames, and `Removal` is the result of
`remove`. The properties are proved about those functions.

Where the source's own doc comments and its code disagree, the model
follows the code:

- **Looking up a key.** Dictionary.h:144 documents `contains` as finding
  whether the dictionary holds a record with a given key. As written, it
  compares the key one byte past the start of each record's key. So in a
  store holding one record it never finds that record's key, and with the
  records "k"/"v" and "xk"/"w", `contains("k")` matches the second record
  (see Findings).
- **Removing a record.** Dictionary.h:153 documents `remove` as deleting the
  record with a given key. The code shifts out the bytes from one past the
  matched record's start, so the key's first byte stays. It never changes
  `_keys`, and it keeps the count unless it clears the whole store.
- **Hex decoding.** ByteArray.h:137 documents `fromHex` as returning the
  buffer converted from hex. The code's decoding loop runs while
  `i < tfromHex._count`, and that count is 0 for the freshly constructed
  result (ByteArray.cpp:32-34, 171-173). So `fromHex` always returns an
  empty buffer.

## Model

| member | source | states |
|---|---|---|
| ByteArrays.Appended | ByteArray.cpp:154-160 | with room, the contents gain x at the end; when full the buffer is unchanged; no stored byte other than the one at the old count changes, and the capacity stays |
| ByteArrays.Cleared | ByteArray.cpp:117-119 | clear empties the contents but leaves the storage bytes as they were |
| ByteArrays.WithCount | ByteArray.cpp:128-131 | update_count sets the count to n, clamped to the capacity, and never touches the bytes |
| ByteArrays.ByteAt | ByteArray.cpp:140-145 | at(i) reads the stored byte for any i below the capacity (including bytes past the count) and 0 beyond it |
| ByteArrays.AppendedIsFill | ByteArray.cpp:154-160 | one append is the saturating concatenation of [x] capped at the capacity |
| ByteArrays.AppendedAll | ByteArray.cpp:154-160 | appending a sequence byte by byte keeps the capacity and the bytes already held, and the count grows by the sequence's length, up to the capacity |
| ByteArrays.AppendedAllIsFill | ByteArray.cpp:154-160 | appending a sequence byte by byte keeps exactly the prefix of the concatenation that fits the capacity |
| ByteArrays.AppendedAllFromEmpty | ByteArray.cpp:154-160 | from an empty buffer, appending s yields s when it fits and its first capacity bytes otherwise |
| ByteArrays.ByteArray.Empty | ByteArray.cpp:23-25 | the void constructor gives capacity 0 and no contents |
| ByteArrays.ByteArray.constructor | ByteArray.cpp:32-34 | ByteArray(n) gives capacity n and count 0 |
| ByteArrays.ByteArray.Adopt | ByteArray.cpp:42-44 | adopting storage makes it the buffer, full to its length |
| ByteArrays.ByteArray.AdoptFilled | ByteArray.cpp:53-55 | adopting storage with a fill count exposes exactly its first filled bytes |
| ByteArrays.ByteArray.Repeat | ByteArray.cpp:63-66 | the repeat constructor holds repeats copies of c, full |
| ByteArrays.ByteArray.Clear | ByteArray.cpp:117-119 | the new state is the cleared buffer |
| ByteArrays.ByteArray.UpdateCount | ByteArray.cpp:128-131 | the new state is the clamped count, and the result is the new count |
| ByteArrays.ByteArray.At | ByteArray.cpp:140-145 | returns the byte that ByteAt specifies, 0 beyond the capacity |
| ByteArrays.ByteArray.Append | ByteArray.cpp:154-160 | the new state is the saturating append, and the result is the new count, or 0 when the buffer was full |
| ByteArrays.ByteArray.FromHex | ByteArray.cpp:170-199 | as written: a fresh buffer of capacity ceil(n/2) whose contents are empty, because the loop is bounded by that fresh buffer's count of 0 |
| ByteArrays.UpperCaseNibbleAsWritten | ByteArray.cpp:177-194 | as written, an upper-case hex digit decodes through the lower-case offset to a wrong nibble |
| ByteArrays.HexNibbleValues | ByteArray.cpp:177-194 | with the intended offsets, every hex digit maps to its value and every other character to a nibble below 16 |
| ByteArrays.HexPairNibbles | ByteArray.cpp:177-194 | a decoded byte has the high character's nibble on top and the low character's below |
| ByteArrays.HexDecodedLength | ByteArray.cpp:171 | the output capacity is half the input, rounded up |
| ByteArrays.HexDecodedDigits | ByteArray.cpp:173-197 | byte i of the intended decoding comes from characters 2i and 2i+1, and an odd last character gives a zero low nibble |
| ByteArrays.FromHexIntended | ByteArray.cpp:170-199 | the corrected fromHex returns the intended pairwise decoding of the input's contents, filling its capacity of half the input rounded up |
| ByteArrays.AppendOne | ByteArray.cpp:196 | one append in the decoding loop extends the decoded prefix by its next byte and raises the count by one |
| Crc16.TableStep | CRC16.h:21-23 | one table-driven step, the running CRC shifted down by 8 and combined with the table entry of its low byte xor the data byte, equals eight bit-serial steps with polynomial 0x8408 |
| Crc16.TableFromAgrees | CRC16.h:21-23 | the table-driven fold over any data equals the bit-serial CRC of RFC 1662, Appendix C.2 |
| Crc16.Calc | CRC16.h:43-50 | Calc from an initial value is the bit-serial CRC of the data, and empty data leaves the initial value |
| Crc16.CalcX25 | CRC16.h:52-59 | Calc_X25 is the complement of Calc from 0xFFFF, and appending it, low byte first, brings Calc to the residue 0xF0B8 |
| Crc16.TrailerResidue | CRC16.h:52-69 | any data followed by its complemented CRC, low byte first, leaves the residue 0xF0B8 |
| Crc16.CheckX25 | CRC16.h:61-69 | Check_X25 succeeds exactly when Calc over the data, trailer included, leaves the residue |
| Crc16.CrcBytes | CRC16.h:52-59 | the two trailer bytes reassemble, little-endian, to Calc_X25 of the data |
| Crc16.CalcFromAppend | CRC16.h:43-50 | the CRC of a concatenation is the CRC of the second part started from the first part's CRC |
| Crc16.CalcFromPair | CRC16.h:43-50 | two bytes update the running CRC one after the other |
| Crc16.ComplementResidue | CRC16.h:28-34 | feeding a CRC its own complement always ends at the residue 0xF0B8, whatever the value |
| Crc16.AppendedCrcChecks | CRC16.h:61-69 | any data followed by its X.25 trailer passes Check_X25 |
| Crc16.CalcBuffer | CRC16.h:43-50 | the loop over a ByteArray computes Calc on its contents, and empty data leaves the initial value |
| Crc16.CheckBuffer | CRC16.h:61-69 | the check succeeds exactly when the contents satisfy the X.25 residue test |
| Slip.Step | SlipDecoder.cpp:55-106 | a step keeps the decoder state well formed and the output capacity fixed |
| Slip.Run | SlipDecoder.cpp:51-53 | running over a stream keeps the state well formed and the capacity fixed |
| Slip.RunAppend | SlipDecoder.cpp:49-109 | decoding a + b equals decoding a and then b from the resulting state, so input may arrive in any chunks |
| Slip.EscapeByte | SlipDecoder.h:85-102 | an escaped byte is one or two bytes and never the frame delimiter |
| Slip.Escape | SlipDecoder.h:85-102 | an escaped payload holds no delimiter and is at most twice as long |
| Slip.Encode | SlipDecoder.h:85-102 | a frame starts and ends with the delimiter and has none inside |
| Slip.EscapedInFrame | SlipDecoder.cpp:66-104 | inside a frame, the escaped form of a payload appends exactly that payload to the output |
| Slip.OpenFrame | SlipDecoder.cpp:56-64 | the delimiter in Initial (or on an empty frame) clears the output and enters InFrame without reporting a frame |
| Slip.CloseFrame | SlipDecoder.cpp:66-85 | the delimiter after data reports the output to the client (if any) and clears it for the next frame |
| Slip.FrameDecodes | SlipDecoder.cpp:49-109 | a whole encoded frame from a synchronised state leaves an empty frame open and, with a client, a non-empty payload and room for at least one byte, reports the payload (cut to the capacity) as one frame; otherwise it reports nothing |
| Slip.RoundTrip | SlipDecoder.cpp:49-109 | decoding the encoding of a non-empty payload that fits delivers that payload |
| Slip.StreamRoundTrip | SlipDecoder.cpp:49-109 | decoding the concatenated encodings of a list of payloads delivers exactly that list, in order |
| Slip.InitialDiscards | SlipDecoder.cpp:56-64 | before synchronisation, bytes other than the delimiter are dropped and change nothing |
| Slip.BadEscapeAborts | SlipDecoder.cpp:87-104 | an escape followed by an illegal byte drops back to Initial, and the following bytes up to a delimiter are ignored |
| Slip.FramesWellFormed | SlipDecoder.cpp:66-85 | decoding only adds frames, every frame reported is non-empty and fits the output capacity, and with no client nothing is reported |
| Slip.SlipDecoder.constructor | SlipDecoder.cpp:23-26 | a new decoder starts in Initial with the given client |
| Slip.SlipDecoder.Reset | SlipDecoder.cpp:32-35 | Reset returns to Initial |
| Slip.SlipDecoder.Decode | SlipDecoder.cpp:49-109 | the loop leaves the state, output buffer and reported frames that Run specifies for the input's contents |
| UInt16.Low16 | Dictionary.cpp:125-130 | a uint16_t result, equal to the value when it fits and wrapped by 65536 for a small negative value |
| UInt16.Low16IsMod | Dictionary.cpp:125-130 | the uint16_t truncation is reduction modulo 65536 |
| DictionaryScan.SkipNZeros | Dictionary.cpp:20-34 | as written, the result lies in 1..dicsize+1 |
| DictionaryScan.SkipLoopSpec | Dictionary.cpp:29-32 | the loop stops just after the n-th zero when there are n zeros before the limit, and at the limit otherwise |
| DictionaryScan.SkipFindsZero | Dictionary.cpp:20-34 | when the n-th zero sits at z-1, the intended skip gives z and the written one z+1 |
| DictionaryScan.SkipNZerosIntended | Dictionary.cpp:20-34 | the intended skip stays within dicsize, gives 0 for n = 0, gives the position just after the n-th zero when there are n zeros, and dicsize otherwise |
| DictionaryScan.Scan0FromHere | Dictionary.cpp:36-42 | scan0FromHere counts the non-zero bytes from p, never more than maxsize, and stops at a zero unless it reaches maxsize or the capacity |
| DictionaryScan.ScanCString | Dictionary.cpp:36-42 | at a zero-terminated string, scan0FromHere returns that string's length |
| DictionaryScan.KeyPosition | Dictionary.cpp:103-105 | with the intended skip, 2n zeros lead to the start of record n |
| DictionaryScan.ValuePosition | Dictionary.cpp:114-116 | with the intended skip, 2n+1 zeros lead to the start of record n's value |
| Dictionaries.RecordsBound | Dictionary.cpp:103-116 | in a well-formed store, 2·_keys never passes the count, so the uint16 arithmetic of the accessors does not wrap |
| Dictionaries.KeyAt | Dictionary.cpp:103-105 | key(n) is a position from 1 to count + 1 |
| Dictionaries.DataAt | Dictionary.cpp:114-116 | data(n) is a position from 1 to count + 1 |
| Dictionaries.SizeofKey | Dictionary.cpp:125-130 | sizeof_key(n) is the run of non-zero bytes at key(n), within the count, ended by a zero unless it reaches the count |
| Dictionaries.SizeofData | Dictionary.cpp:139-144 | sizeof_data(n) is the run of non-zero bytes at data(n), within the count, ended by a zero unless it reaches the count |
| Dictionaries.RecordPositionsAsWritten | Dictionary.cpp:103-116 | as written, key(n) points one past the start of record n and data(n) one past the start of record n+1 |
| Dictionaries.KeySizeAsWritten | Dictionary.cpp:125-130 | as written, sizeof_key(n) is one less than the key's length |
| Dictionaries.DataPrecedenceAsWritten | Dictionary.cpp:114-116 | `1 + n << 1` parses as (1+n)<<1 = 2(n+1) zeros, which skips to the next record rather than to record n's value |
| Dictionaries.RecordPositionsCorrected | Dictionary.cpp:103-116 | with the intended skip and (2n+1) zeros, key(n) and data(n) are the starts of record n's key and value |
| Dictionaries.KeyAccessCorrected | Dictionary.cpp:125-130 | the corrected key(n) and sizeof_key(n) give exactly record n's key |
| Dictionaries.ValueAccessCorrected | Dictionary.cpp:139-144 | the corrected data(n) and sizeof_data(n) give exactly record n's value |
| Dictionaries.AppendRecord | Dictionary.cpp:153-166 | append copies key, 0, value, 0 from the count until the capacity, forces the last byte of the buffer to 0 and changes no other byte |
| Dictionaries.AppendFits | Dictionary.cpp:153-166 | when the record fits before the last byte, the contents gain exactly its bytes |
| Dictionaries.AppendLayout | Dictionary.cpp:153-166 | appending a record that fits to a well-formed store gives a well-formed store with that record added at the end |
| Dictionaries.FindFrom | Dictionary.cpp:249-261 | a match found by the scan is a position where key and terminator appear, within the count |
| Dictionaries.ContainsBounds | Dictionary.cpp:241-263 | an empty key is never found, and a found value position lies inside the buffer |
| Dictionaries.ContainsKey | Dictionary.cpp:241-263 | an empty key is never found, and a found position is just past a place in the buffer where the key and its terminator appear |
| Dictionaries.FirstMatch | Dictionary.cpp:249-261 | the reference search: the first record from k whose key matches, and none exactly when no record does |
| Dictionaries.MatchAtCString | Dictionary.cpp:252-254 | comparing key plus terminator at a zero-terminated string succeeds exactly when the string is the key |
| Dictionaries.FindFromLayout | Dictionary.cpp:249-261 | on a well-formed store, the record walk finds the first record from k that matches, at that record's key position |
| Dictionaries.ContainsLayout | Dictionary.cpp:241-263 | contains returns the value position of the first matching record, or none when none matches |
| Dictionaries.ContainsFound | Dictionary.cpp:241-263 | contains returns the end of the first match found, and none when there is none |
| Dictionaries.AppendedKeyNotFound | Dictionary.cpp:241-263 | as written, the key just appended to an empty store is not found; with the intended skip it is found at its value |
| Dictionaries.Shifted | Dictionary.cpp:292-295 | shifting the bytes keeps the storage length |
| Dictionaries.ShiftedAt | Dictionary.cpp:292-295 | after the shift the byte just below the old tail's new end is 0 and every other byte is the shifted copy or unchanged |
| Dictionaries.SpanEnd | Dictionary.cpp:285-291 | the end of the removed span lies between the found value and the count |
| Dictionaries.Removed | Dictionary.cpp:272-302 | remove deletes nothing for an empty or missing key; otherwise it either shifts, keeping the count, or clears all; it keeps the capacity and never deletes more than the count |
| Dictionaries.RemoveAsWrittenLayout | Dictionary.cpp:272-302 | as written, removing a record's key on a well-formed store shifts out the span from one past the record's start to its end, keeping count and _keys |
| Dictionaries.RemoveSpanCases | Dictionary.cpp:292-299 | the span is shifted out when shorter than the count, and the whole store is cleared otherwise |
| Dictionaries.ShiftLayout | Dictionary.cpp:292-295 | shifting out a whole record of a well-formed store leaves the other records, well formed, with the count reduced by the record's size |
| Dictionaries.OnlyRecord | Dictionary.cpp:296-298 | when the record spans the whole count it is the only one, and clearing leaves an empty well-formed store |
| Dictionaries.RemoveCorrectedLayout | Dictionary.cpp:272-302 | with the intended positions, removing a key deletes exactly its first matching record, well formed, with the record's size deleted and the record count lowered; a key that matches no record changes nothing |
| Dictionaries.CopyTerminated | Dictionary.cpp:157-162 | the copy writes s and a 0 from start until the capacity and leaves every other byte alone |
| Dictionaries.ShiftDown | Dictionary.cpp:292-295 | the in-place loop leaves the array equal to the shifted sequence |
| Dictionaries.ShiftOut | Dictionary.cpp:292-295 | the buffer is the shifted storage with the count unchanged |
| Dictionaries.RemoveSpanIn | Dictionary.cpp:285-299 | shifting or clearing the buffer leaves the state and the deletion count that the specification gives |
| Dictionaries.RemoveFrom | Dictionary.cpp:272-302 | the in-place removal leaves the buffer and the deletion count that Removed specifies |
| Dictionaries.Dictionary.Default | Dictionary.cpp:50-52 | the default store has 256 bytes, count 0 and no records |
| Dictionaries.Dictionary.constructor | Dictionary.cpp:59-61 | a new store of the given size has count 0 and no records |
| Dictionaries.Dictionary.Key | Dictionary.cpp:103-105 | key(n) on the object is KeyAt of its buffer, a position from 1 to count + 1 |
| Dictionaries.Dictionary.Data | Dictionary.cpp:114-116 | data(n) on the object is DataAt of its buffer, a position from 1 to count + 1 |
| Dictionaries.Dictionary.SizeOfKey | Dictionary.cpp:125-130 | the bytes from key(n) over sizeof_key(n) are non-zero and inside the buffer |
| Dictionaries.Dictionary.SizeOfData | Dictionary.cpp:139-144 | the bytes from data(n) over sizeof_data(n) are non-zero and inside the buffer |
| Dictionaries.Dictionary.Contains | Dictionary.cpp:241-263 | an empty key is never found, and a found position is just past the key and its terminator in the buffer |
| Dictionaries.Dictionary.Append | Dictionary.cpp:153-166 | the buffer becomes the record's saturating append, _keys is incremented in uint16, and the result is the new count |
| Dictionaries.Dictionary.Remove | Dictionary.cpp:272-302 | the buffer and result are those of Removed, and _keys stays as it was |
| Dictionaries.Dictionary.Clear | Dictionary.cpp:311-314 | clear empties the buffer and sets _keys to 0 |
| SerialMessages.HeaderFields | ServiceAccessPoint.cpp:45-48 | a new request reads back its SAP id and message id, has payload length 0 and reports no status |
| SerialMessages.AppendKeepsHeader | DeviceManagement.cpp:180-182 | appending bytes keeps the header fields and grows the payload by their number |
| SerialMessages.U32RoundTrip | DeviceManagement.cpp:180-182 | a 32-bit value appended little-endian reads back unchanged at its offset |
| SerialMessages.CrcRoundTrip | ServiceAccessPoint.cpp:104-107 | a message with its CRC appended passes the check, and removing the CRC restores it |
| SerialMessages.ShortKeepsBytes | ServiceAccessPoint.cpp:104-107 | a message shorter than header plus CRC is left alone by the removal |
| SerialMessages.SerialMessage.constructor | ServiceAccessPoint.cpp:45-48 | the message holds just the two-byte header |
| SerialMessages.SerialMessage.Received | RadioHub.cpp:93-103 | the message handed to dispatch holds exactly the SLIP-decoded frame |
| SerialMessages.SerialMessage.CheckCrc16 | ServiceAccessPoint.cpp:104 | the check succeeds exactly when the bytes leave the X.25 residue, and always when the last two bytes are the trailer of the rest |
| SerialMessages.SerialMessage.AppendU32 | DeviceManagement.cpp:180-182 | the message gains the value's four little-endian bytes |
| SerialMessages.SerialMessage.AppendCrc16 | ServiceAccessPoint.cpp:64 | the message gains its own X.25 trailer |
| SerialMessages.SerialMessage.RemoveCrc16 | ServiceAccessPoint.cpp:107 | the message loses its two trailing CRC bytes when long enough |
| ServiceAccessPoints.FindSap | ServiceAccessPoint.cpp:109-123 | the walk returns a position in the list or none |
| ServiceAccessPoints.FindSapSpec | ServiceAccessPoint.cpp:109-123 | the walk finds the first registered SAP carrying the id, and none exactly when no SAP has it |
| ServiceAccessPoints.DispatchNeedsCrc | ServiceAccessPoint.cpp:104-105 | a message failing the CRC check is not handled |
| ServiceAccessPoints.DispatchSent | ServiceAccessPoint.cpp:101-126 | a message with a valid CRC goes to the first SAP with its id, without the CRC; with no such SAP it is unhandled |
| ServiceAccessPoints.NewestSapWins | ServiceAccessPoint.cpp:27-34 | with two SAPs of one id, the last constructed receives the messages |
| ServiceAccessPoints.Registry.constructor | ServiceAccessPoint.cpp:17 | the list starts empty |
| ServiceAccessPoints.Registry.Register | ServiceAccessPoint.cpp:27-34 | a new SAP goes to the head of the list |
| ServiceAccessPoints.Registry.OnDispatchMessage | ServiceAccessPoint.cpp:101-126 | the CRC is removed only when it checks, and the outcome is that of the dispatch specification |
| ServiceAccessPoints.Wakeups | ServiceAccessPoint.cpp:66-70 | numWakeupChars wake-up bytes, all equal to the SLIP delimiter, and none for a value of 0 or below |
| ServiceAccessPoints.EncodeOutput | ServiceAccessPoint.cpp:66-72 | the output gains the wake-up bytes and then the SLIP frame, saturating at its capacity, for any wakeup count |
| ServiceAccessPoints.EncodeInto | ServiceAccessPoint.cpp:72 | the encoder loop appends the SLIP encoding of its input |
| ServiceAccessPoints.SendMessage | ServiceAccessPoint.cpp:59-88 | as written: the message gains its CRC, but the output buffer has capacity 0 and receives nothing |
| ServiceAccessPoints.SendRequest | ServiceAccessPoint.cpp:45-48 | as written: a request to reqID leaves an empty output |
| ServiceAccessPoints.WakeupCounterWraps | ServiceAccessPoint.cpp:68 | the uint8_t wakeup counter after k increments is k modulo 256 |
| ServiceAccessPoints.WakeupLoopNeverEnds | ServiceAccessPoint.cpp:68 | as written, with 256 or more wakeup characters the counter stays below the count after any number of increments, so the loop never ends |
| ServiceAccessPoints.SendMessageCorrected | ServiceAccessPoint.cpp:59-88 | with an output sized for the worst case and a counter as wide as the count, it holds the wake-up bytes and the SLIP frame of the message with its CRC |
| ServiceAccessPoints.SendRequestCorrected | ServiceAccessPoint.cpp:45-48 | the corrected request output is the framed header with its CRC |
| ServiceAccessPoints.WakeupsOpenFrame | ServiceAccessPoint.cpp:68-70 | the wake-up bytes only synchronise the receiving decoder and never produce a frame |
| ServiceAccessPoints.SendThenReceive | ServiceAccessPoint.cpp:59-126 | the corrected send output, decoded by a SLIP decoder, gives the message with its CRC back, and dispatch passes the bare message to the first SAP with its id |
| DeviceManagement.HandledIds | DeviceManagement.cpp:57-68 | exactly the nine response and indication ids have a handler, and no request id has one |
| DeviceManagement.EventNamesCoverHandlers | DeviceManagement.cpp:43-68 | every handled id has an event name, and no other id has one |
| DeviceManagement.StatusText | DeviceManagement.cpp:18-31 | status codes up to CommandRejected are in the table, ok reads "ok", any other code reads "error", and "error" is the text exactly of Error and of the codes past the table |
| DeviceManagement.OnDefaultResponse | DeviceManagement.cpp:227-235 | handled exactly when a status byte follows the header, recording only its status text; nothing otherwise |
| DeviceManagement.OnStartupIndication | DeviceManagement.cpp:249-262 | handled exactly when the message holds the header plus device and firmware info, recording both; nothing otherwise |
| DeviceManagement.OnDeviceInfoResponse | DeviceManagement.cpp:276-289 | handled exactly from 16 bytes on; the status text comes first, and the device info follows exactly when the status is ok |
| DeviceManagement.OnFirmwareVersionResponse | DeviceManagement.cpp:325-338 | handled exactly from 18 bytes on; the status text comes first, and the firmware info follows exactly when the status is ok |
| DeviceManagement.OnDateTimeResponse | DeviceManagement.cpp:373-390 | handled exactly from 7 bytes on; the status text comes first, and the date-time info follows exactly when the status is ok |
| DeviceManagement.OnSystemOptionsResponse | DeviceManagement.cpp:404-429 | handled exactly from 7 bytes on; the status text comes first, followed by the five option entries when the status is ok and by nothing otherwise |
| DeviceManagement.OnDecodeMessage | DeviceManagement.cpp:198-214 | a handled id records its event name and then the handler's fields and verdict; any other id (or a message too short for one) is reported as unsupported and counts as handled |
| DeviceManagement.HandlerGuard | DeviceManagement.cpp:227-430 | each handler accepts exactly the messages that reach its minimum length, and records nothing otherwise |
| DeviceManagement.DetailsOnlyWhenOk | DeviceManagement.cpp:276-430 | a response decoder always records the status text first, and details only when the status is ok |
| DeviceManagement.SystemOptionFlags | DeviceManagement.cpp:404-430 | an ok system-options response lists the five option bits, each "on" exactly when its bit is set |
| DeviceManagement.LowBits | DeviceManagement.h:76-82 | the option bits are bits of the low byte of the little-endian word |
| DeviceManagement.SystemOptionsWords | DeviceManagement.cpp:153-179 | the mask names exactly the options mentioned, the options word sets exactly those turned on, and no option outside the mask is set |
| DeviceManagement.OnSetSystemOptions | DeviceManagement.cpp:153-185 | the request is the header followed by the mask and options words, which read back unchanged |
| DeviceManagement.OnSetDateTime | DeviceManagement.cpp:119-128 | the request is the header, the seconds as a little-endian uint32 and the CRC, and the seconds read back unchanged |
| DeviceManagement.PingResponseDispatched | DeviceManagement.cpp:198-236 | a ping response routed through the SAP list is decoded as a ping with its status text |
| AMaps.InsertedValue | aMap.h:29-46 | after insert(k, v), value(k) is v, and every other key reads as before |
| AMaps.RemovedKey | aMap.h:60-62 | after remove(k), k is absent, and every other key is present and reads as before |
| AMaps.InsertSize | aMap.h:29-52 | inserting an existing key keeps the size, and a new key adds one |
| AMaps.RemoveSize | aMap.h:50-62 | removing a present key drops the size by one, and an absent key changes nothing |
| AMaps.AMap.constructor | aMap.h:25 | the wrapped std::map starts empty |
| AMaps.AMap.Insert | aMap.h:29-31 | the map is updated at k |
| AMaps.AMap.Contains | aMap.h:34-36 | contains(k) holds exactly when k is a key of the map |
| AMaps.AMap.Value | aMap.h:39-46 | value(k, d) is the stored value for a present key and d for an absent one |
| AMaps.AMap.Size | aMap.h:50-52 | size is the number of keys when it fits in uint16 |
| AMaps.AMap.Clear | aMap.h:55-57 | the map becomes empty, size 0 |
| AMaps.AMap.Remove | aMap.h:60-62 | the key is erased and no longer contained |
| CommandTables.FirstFrom | CommandTables.cpp:39-46 | the reference search returns -1 or a position from k on |
| CommandTables.FirstFromSpec | CommandTables.cpp:39-46 | the reference search finds the first matching key, and -1 exactly when none matches |
| CommandTables.FindItem | CommandTables.cpp:39-46 | findItem returns the first index below CommandCount with the key, or -1 exactly when there is none |
| CommandTables.SeparatorResolvesFirst | iM284A_L0.cpp:47-73 | in the top-level menu the duplicated '-' key always resolves to its first entry |

## Left out

- Serial port I/O: writing the encoded output to the port and the drain loop (ServiceAccessPoint.cpp:75-87) are left out. The model returns the encoded output instead.
- Virtual dispatch: `OnDecodeMessage` is passed to the dispatch as a function parameter per SAP. The base class's `false` (ServiceAccessPoint.h:34) is one such function.
- Object lifetime: memory ownership, copies and destructors of `ByteArray` and `Dictionary` are left out. So are static-initialisation order and the `RadioHub` glue.
- Dictionary output: the `Dictionary` print overloads are left out, because they are console output.
- Dictionary.Append overloads: the three other overloads of `append` (Dictionary.cpp:175-232) are left out, because they copy the same bytes as the first.
- Device and firmware records: `DecodeDeviceInfo`, `DecodeFirmwareInfo` and the date-time text rendering (DeviceManagement.cpp:302-360, 373-391) are left out, because they are string formatting and clock decoding. The nested dictionaries they produce are recorded only as `Detail(key)`. Their length guards and status handling are modelled.
- Module types: the `_ModuleTypes` table is left out, because only the left-out `DecodeDeviceInfo` uses it.
- Option parsing: splitting `params["Options"]` at ", " is left out. `OnSetSystemOptions` takes the list of option texts directly.
- Request wrappers: OnPingDevice, OnGetDeviceInfo, OnGetFirmwareVersion, OnGetDateTime, OnRestartDevice and OnGetSystemOptions (DeviceManagement.cpp:84-146, except 119-128) each call `SendMessage(reqID)` and are covered by SendRequest.
- Clock: `QDateTime::currentSecsSinceEpoch()` in OnSetDateTime (DeviceManagement.cpp:123) is a clock read, so `OnSetDateTime` takes the seconds as a parameter.
- CRC table and loops: CRC16.cpp is not part of this model. `Calc` follows the description at CRC16.h:21-23, a lookup table generated from polynomial 0x8408, and is proved equal to the bit-serial CRC of RFC 1662, Appendix C.2.
- Message storage: `SerialMessage` bytes are an unbounded sequence, so its capacity is not modelled. The Arduino SerialMessage class is not part of this model. Its accessors follow the Qt class in Example Code1/RadioHub/Utils/SerialMessage.cpp. That class lacks GetResponsePayloadLength, EventData_Index and ResponseData_Index, so the model fixes them as count - 3, byte 2 and byte 3. The 16, 18, 7 and 7 byte thresholds of the guarded response decoders depend on that choice.
- Dictionaries.ContainsKey, Dictionaries.Removed, Dictionaries.Dictionary.Contains, Dictionaries.Dictionary.Remove: a key is a byte sequence. For a key with a zero byte inside, C's `strlen` and `memcmp` would stop at that byte, but the model uses the whole sequence. So these model the C string exactly only for zero-free keys, as `Dictionary.Append` requires.
- Dictionaries.Dictionary.Append: requires a buffer size above 0, because `*--plimit = 0` writes before the buffer when the capacity is 0. Keys and values must hold no zero byte, as C strings cannot.
- Dictionaries.Dictionary.Remove: requires a key shorter than 0xFFFF, the range of the uint16 `strlen` result.
- Scans past the capacity: the source's scans read past the end of the buffer when no zero is found. That is undefined behaviour, so the model stops them at the capacity.
- Slip.SlipDecoder.Decode: requires that output and input are different buffers. Decoding a buffer into itself is not modelled.
- ServiceAccessPoints.SendMessage: requires numWakeupChars below 256, because the uint8_t loop counter never reaches a larger value and the loop would not end (see Findings). The same holds for SendRequest. EncodeOutput and the corrected versions use an int counter and have no such bound.
- ServiceAccessPoints.SendMessageCorrected: requires the worst-case output size to fit a uint16 capacity. SendRequestCorrected requires the same for a header-only message.
- CommandTables.FindItem: requires CommandCount not to exceed the table, which the source assumes without checking.

## Findings

| source | as written | input that shows it | evidently intended | confidence | as-written member | corrected member |
|---|---|---|---|---|---|---|
| Dictionary.cpp:33 | `skipNzeros` increments `i` once more after the loop, so it points one byte past the field start | store holding record "k"/"v": `key(0)` is position 1, not 0 | return the position just after the n-th zero | not executed | DictionaryScan.SkipFindsZero, Dictionaries.KeySizeAsWritten, Dictionaries.AppendedKeyNotFound | DictionaryScan.SkipNZerosIntended, Dictionaries.KeyAccessCorrected |
| Dictionary.cpp:115 | `data(n)` passes `1 + n << 1`, which C++ parses as (1 + n) << 1 = 2n + 2 | `data(0)` on the store "k"/"v","x"/"y" lands in the second record, not on "v" | skip 2n + 1 zeros, `1 + (n << 1)` | not executed | Dictionaries.DataPrecedenceAsWritten | Dictionaries.ValueAccessCorrected |
| ByteArray.cpp:170-199 | `fromHex` bounds its loop by the fresh result's count, which is 0, so it returns an empty buffer; it also decodes 'A'-'F' with the 'a' offset | "4A" gives an empty buffer | return the decoded bytes, with 'A'-'F' worth 10-15 | not executed | ByteArrays.ByteArray.FromHex, ByteArrays.UpperCaseNibbleAsWritten | ByteArrays.FromHexIntended, ByteArrays.HexDecodedDigits |
| Dictionary.cpp:272-302 | `remove` shifts the bytes over the span but keeps the count and `_keys`, and through the off-by-one keeps the key's first byte | `remove("k")` on the store "ok"/"v" matches the key's tail "k", zeroes the first byte and leaves count 5 and `_keys` 1 | delete the whole record and lower count and `_keys` | not executed | Dictionaries.RemoveAsWrittenLayout | Dictionaries.RemoveCorrectedLayout |
| ServiceAccessPoint.cpp:68 | the wakeup loop counts in a `uint8_t` against the `int` `_NumWakeupChars`, so the counter wraps at 256 | a SAP constructed with numWakeupChars = 256: the counter runs 0..255 and wraps to 0, always below 256 | count with a counter as wide as `_NumWakeupChars` | not executed | ServiceAccessPoints.WakeupLoopNeverEnds, ServiceAccessPoints.WakeupCounterWraps | ServiceAccessPoints.EncodeOutput, ServiceAccessPoints.SendMessageCorrected |
| ServiceAccessPoint.cpp:61 | `SendMessage` encodes into `ByteArray outputData`, constructed with capacity 0, so nothing is ever sent | any message gives an empty output | size the output for the wake-up bytes and the escaped frame | not executed | ServiceAccessPoints.SendMessage | ServiceAccessPoints.SendMessageCorrected, ServiceAccessPoints.SendThenReceive |
