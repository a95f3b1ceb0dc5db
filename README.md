# lilliput-monitor codec, modelled in Dafny

lilliput-monitor drives two families of displays over a byte stream. Each
driver turns a text command such as `audio 50,Level,2-1` or `status?` into
the frame its device expects. It also turns a frame received from the device
into a result with a name and a value. Both drivers take opcodes, parameter
layouts and value names from a command registry loaded from an XML data
file.

- The **Lilliput** driver (`lilliputd.js`) sends
  `5A len 00 20 01 FF 00 00 opcode params.. checksum DD`. The checksum is
  the 8-bit sum of every byte before it.
- The **Samsung** driver (`samsungd.js`, the MDC protocol) sends
  `AA opcode id N params.. checksum`. The checksum leaves out the 0xAA
  header. A display replies `AA FF id N A|N r-cmd values.. checksum`, but
  the decoder checks only that the byte two after the first 0xAA is its own
  display id. It never checks the 0xFF marker, the length `N` or the
  checksum of a reply.

The model has these modules:

- `Base`: `Option`, and the first-match search behind `find` and `indexOf`.
- `Bytes`: bytes, the checksum, Node's `subarray`, and its 'ascii' decoding.
- `Text`: the JavaScript string and number functions the drivers use.
  These are `\w`, ASCII case mapping, `trim`, `split`, `Number`,
  `parseInt` and `toString`.
- `Scanner`: the command regular expression `(\w+)(\?)? ?([\w-, ]*)`, run
  by `exec`, written out as a left-to-right scan. It is proved to be the
  unique match of the pattern.
- `Registry`: the registry as the XML parser shapes it, and its lookups.
- `Commands`: the logic both drivers share line for line. A write resolves
  its parameters (numbers or aliases), a read resolves its opcode, and a
  received payload is mapped to a number, an alias, text or an object of
  fields.
- `Lilliput` and `Samsung`: one class per driver. Each has `SetCommand`,
  `GetCommand`, `Encode` and `Decode`. Each method is proved equal to a
  specification function, and lemmas about those functions state the frame
  layouts, the decode filters and the round trips.
- `Examples`: the Lilliput encoder tests for `status?` and
  `audio 50,Level,2-1`, proved against a registry reconstructed from the
  expected frames, and the Samsung read frame of `status?` for the Samsung
  driver's default name and display id.

## Model

| member | source | states |
|---|---|---|
| Base.FindFirst | lilliputd.js:79 | the index found holds an element that passes the test, and none before it does; `None` means no element passes |
| Base.FindFirstSkip | lilliputd.js:206 | elements before the searched part that cannot match only shift the index found |
| Bytes.ToBytes | lilliputd.js:134-137 | every number becomes its low 8 bits, in order, and the length is kept |
| Bytes.SumFrom | lilliputd.js:138-142 | the checksum loop from a start index computes the sum of the bytes from there on |
| Bytes.SumAppend | lilliputd.js:139-141 | the sum of a concatenation is the sum of the parts |
| Bytes.ChecksumAppend | lilliputd.js:138-142 | the masked checksum of a concatenation follows from the checksum of its start and the sum or checksum of the rest |
| Bytes.Subarray | lilliputd.js:222 | Node's `subarray`: negative indices count back from the end, indices are clamped to the buffer, an end at or before the begin gives nothing, and in-range indices give exactly that slice |
| Bytes.AsciiText | lilliputd.js:242-243 | the text of a payload is no longer than the payload and holds only 7-bit characters other than NUL |
| Bytes.AsciiRoundTrip | lilliputd.js:242-243 | a 7-bit string without NULs, sent as bytes, reads back as the same string |
| Bytes.AsciiDropsNul | lilliputd.js:243 | inserting a 0x00 or 0x80 byte anywhere leaves the text unchanged |
| Bytes.AsciiDropsZero | lilliputd.js:242-243 | inserting any byte whose low seven bits are zero leaves the text unchanged |
| Bytes.AsciiHighBit | lilliputd.js:242 | a byte reads as its low seven bits wherever it stands, so 0x81 to 0xFF read as their 7-bit counterparts; with the two lemmas above this fixes the text of every payload |
| Bytes.ByteAt | lilliputd.js:216-219 | indexing past the end gives `undefined`, and otherwise the byte at that index |
| Text.CaseFoldsAgree | lilliputd.js:102-103 | two strings have equal upper-case forms exactly when they have equal lower-case forms |
| Text.TrimLeft | lilliputd.js:61 | the result is a suffix that does not start with white space, and only white space was dropped |
| Text.TrimRight | lilliputd.js:61 | the result is a prefix that does not end with white space, and only white space was dropped |
| Text.TrimSpec | lilliputd.js:61 | `trim` keeps a contiguous slice with no white space at either end, and only white space is cut around it |
| Text.TrimIdempotent | lilliputd.js:61 | trimming twice is trimming once |
| Text.Split | lilliputd.js:60 | there is always at least one piece, and no piece contains the separator |
| Text.JoinSplit | lilliputd.js:60 | joining the pieces of a split restores the string |
| Text.SplitJoin | lilliputd.js:60 | pieces free of the separator are recovered by splitting their join |
| Text.JsNumber | lilliputd.js:75-76 | `Number` gives a number exactly when the trimmed text is all decimal digits, and then its decimal value; blank text gives 0 |
| Text.ParseInt | lilliputd.js:251 | `parseInt` gives a number exactly when the text, after leading white space, starts with a digit, and then the value of that digit prefix |
| Text.DigitPrefix | lilliputd.js:251 | the longest prefix of digits: every character is a digit, and the next character is not |
| Text.NatToString | lilliputd.js:261 | the decimal text of a number is non-empty and all digits; 0 is `"0"`, and no other number has a leading zero |
| Text.DecimalOfNatToString | lilliputd.js:261 | the digits of `toString` have the number as their value |
| Text.NumberOfNatToString | lilliputd.js:261 | both `Number` and `parseInt` read `n.toString()` back as `n` |
| Text.NumberAgreesWithParseInt | lilliputd.js:251 | on a non-empty string of digits, `Number` and `parseInt` give the same value |
| Text.ParseIntOfNumber | lilliputd.js:251 | where `Number` reads a non-blank string, `parseInt` gives the same number |
| Scanner.WordSpan | lilliputd.js:55 | `\w+` takes the maximal run of word characters |
| Scanner.ParamSpan | lilliputd.js:55 | `[\w-, ]*` takes the maximal run of parameter characters |
| Scanner.FirstWord | lilliputd.js:55 | the unanchored match starts at the first word character |
| Scanner.MatchCommand | lilliputd.js:55 | `exec` gives null exactly when there is no word character; a match has a non-empty name of word characters and rest text of parameter characters only |
| Scanner.MatchNone | lilliputd.js:55-57 | `exec` gives null exactly when the command has no word character |
| Scanner.ScanSound | lilliputd.js:55 | the scan meets every condition of the pattern: leftmost, greedy, optional '?' and space |
| Scanner.ScanComplete | lilliputd.js:55 | any spans meeting the conditions of the pattern are the ones the scan finds, so the match is unique |
| Scanner.MatchCommandSpec | lilliputd.js:55 | the groups returned are exactly those cut at spans that satisfy the pattern |
| Scanner.Parameters | lilliputd.js:60-61 | one trimmed parameter per comma-separated piece, in order |
| Scanner.ParametersShape | lilliputd.js:60-61 | no parameter contains a comma or has white space at either end, and there are as many as pieces |
| Scanner.ParametersOfEmpty | lilliputd.js:60-61 | empty parameter text still gives one empty parameter |
| Registry.DefArr | lilliputd.js:89-95 | an array of value defs is kept, a single def becomes a one-element array, and no def becomes `[undefined]` |
| Registry.FindByName | lilliputd.js:79 | the first entry whose name equals the command name, ignoring ASCII case |
| Registry.FindByCode | lilliputd.js:226 | the first entry whose code reads as the reply's opcode |
| Registry.Aliases | lilliputd.js:101-102 | an item's aliases are its comma-separated names, trimmed and upper-cased |
| Registry.FindItemByAlias | lilliputd.js:100-106 | the first item one of whose aliases equals the non-empty parameter, upper-cased |
| Registry.FindItemByValue | lilliputd.js:251 | the first item whose value `parseInt` reads as the byte |
| Registry.CanonicalAliasMatches | lilliputd.js:253-254 | a non-empty alias shown for an item matches that item when written back |
| Registry.FindByNameIgnoresCase | lilliputd.js:79 | names equal up to case find the same entry |
| Registry.FirstByNameWins | lilliputd.js:79 | with an entry of that name at `k`, the lookup succeeds at or before `k` |
| Commands.Duration | lilliputd.js:86-88 | an absent or empty override keeps the default; any other is read by `Number`, giving NaN unless its trimmed text is all digits |
| Commands.ParamValue | lilliputd.js:96-112 | a numeric parameter is itself; otherwise the value of the first item naming it; otherwise undefined |
| Commands.FirstAliasFound | lilliputd.js:100-106 | the alias search lands on the item that is first to match |
| Commands.WritePlan | lilliputd.js:74-124 | a registered write needs 'w' in the mode, a numeric code and every parameter resolved. An unregistered name and its parameters must be numeric. Any failure yields nothing, and the duration is the override or the default |
| Commands.Planned | lilliputd.js:117-124 | a plan exists exactly when the opcode and every parameter are numbers |
| Commands.ReadPlan | lilliputd.js:156-168 | a read never consults the mode: the registered code or the numeric name, and the read duration override or the default |
| Commands.ReadIgnoresMode | lilliputd.js:80-84 | an entry without 'w' never writes but can still be read |
| Commands.EmptyParameterIsZero | lilliputd.js:75-76 | an empty parameter is numeric and resolves to 0 |
| Commands.RawValue | lilliputd.js:222-224 | an unregistered payload of one byte shows the number, and any other length shows the byte array |
| Commands.AliasOf | lilliputd.js:251-255 | a byte is shown as the first alias of the first item whose value reads as it, and none when no item's value does |
| Commands.Keys | lilliputd.js:261 | each field is keyed by its def's name, or by its index as text |
| Commands.Fields | lilliputd.js:262-270 | each field is its byte, or that byte's alias when the def lists items |
| Commands.FieldMapKeys | lilliputd.js:259-272 | the object `FieldMap` builds has exactly the keys assigned |
| Commands.FieldMapLast | lilliputd.js:260-263 | in the object `FieldMap` builds, a key holds the field of its last assignment |
| Commands.FieldMapDistinct | lilliputd.js:258-273 | with distinct keys, every def's key holds its own byte or alias |
| Commands.ReplyEntry | lilliputd.js:226 | a missing opcode byte finds no entry; a present one finds the first entry whose code reads as it, and some entry exactly when one matches |
| Commands.SingleValue | lilliputd.js:245-257 | a single value is the byte itself, unless its def lists items and one of them has that value, and then it is the first such item's first alias |
| Commands.Interpret | lilliputd.js:219-273 | `req` stays undefined exactly when the opcode byte is missing, stays the number with the raw payload exactly when no entry has that code, and is otherwise the entry's name |
| Commands.InterpretUnregistered | lilliputd.js:226-230 | an unregistered opcode keeps `req` as the number and shows the raw payload |
| Commands.InterpretText | lilliputd.js:240-244 | a registered reply whose length differs from its number of defs shows as text |
| Commands.InterpretSingle | lilliputd.js:245-257 | one def and one byte show the byte, or its alias |
| Commands.InterpretFields | lilliputd.js:258-273 | as many bytes as defs, other than one, show an object with a field per def |
| Commands.ShowField | lilliputd.js:262-270 | one step of the field loop computes the field of that def and byte |
| Commands.FillFields | lilliputd.js:259-271 | the loop over the defs builds the field object, later keys overwriting earlier ones |
| Commands.ShowSingle | lilliputd.js:245-257 | the single-value branch computes the byte or its alias |
| Commands.MapReading | lilliputd.js:219-273 | the step-by-step assignments of `req` and `value` compute the reading |
| Commands.AliasRoundTrip | lilliputd.js:100-108 | a value written by alias reads back as that item's first alias, when no earlier item claims its value |
| Commands.TextRoundTrip | lilliputd.js:240-244 | a 7-bit text reply whose length differs from the number of defs reads back as that text |
| Lilliput.WriteFrame | lilliputd.js:125-144 | a write frame has N + 11 bytes: 0x5A, the length byte N + 11 truncated, the fixed header `00 20 01 ff 00 00`, the opcode and parameters truncated at offsets 8 and 9.., then the checksum of all before it and 0xDD |
| Lilliput.ReadFrame | lilliputd.js:170-186 | a read frame has 11 bytes: 0x5A, the length byte 11, the fixed header, the truncated opcode at offset 8, the checksum of the first nine bytes and 0xDD |
| Lilliput.WriteCommand | lilliputd.js:74-154 | `setCommand` gives an encoding exactly when the write resolves; its frame is the write frame of the resolved opcode and parameters (N + 11 bytes, opcode at offset 8, parameters from 9), and the resolved duration |
| Lilliput.ReadCommand | lilliputd.js:156-196 | `getCommand` gives an encoding exactly when the read resolves; its frame is the 11-byte read frame of the resolved opcode, and the resolved duration |
| Lilliput.EncodeCommand | lilliputd.js:50-72 | special exactly for a leading '#', no object exactly when there is no word character, and otherwise an object with the driver name and the command text |
| Lilliput.WriteBodyLayout | lilliputd.js:125-136 | length byte N + 11 and opcode and parameters each truncated to 8 bits, around the fixed header |
| Lilliput.WriteFrameLayout | lilliputd.js:125-144 | a frame of N + 11 bytes: the body, the checksum of all before it, then 0xDD. The length byte is the frame length when below 256 |
| Lilliput.ReadFrameIsEmptyWrite | lilliputd.js:170-186 | a read frame is the write frame with no parameters |
| Lilliput.AssembleWrite | lilliputd.js:125-144 | the appends and the checksum loop build the write frame |
| Lilliput.AssembleRead | lilliputd.js:170-186 | the appends and the checksum loop build the read frame |
| Lilliput.EncodeShape | lilliputd.js:50-72 | no object exactly when there is no word character. Otherwise an object with the driver name and command, a read after '?', and else a write of the trimmed parameters |
| Lilliput.WriteNeedsWriteMode | lilliputd.js:80-84 | a write to an entry without 'w' gives no frame, while a read of it does |
| Lilliput.Durations | lilliputd.js:77-88 | a frame's duration is the entry's override when present, else the option |
| Lilliput.StartOf | lilliputd.js:206-208 | the index of the first 0x5A, or none |
| Lilliput.DecodeResponse | lilliputd.js:206-215 | no response exactly when there is no 0x5A. A response carries the driver name, the raw buffer and no status |
| Lilliput.DecodeSkipsNoise | lilliputd.js:206-211 | prepending bytes other than 0x5A changes only the raw buffer of the response |
| Lilliput.PayloadSlice | lilliputd.js:216-222 | the payload is `[9, len - 2)` clamped to the buffer; a length byte below 2 counts back from the end |
| Lilliput.DecodeFrame | lilliputd.js:216-222 | a write frame's opcode byte and parameter bytes are where decode reads them |
| Lilliput.DecodeWriteFrame | lilliputd.js:203-276 | decoding a write frame maps its opcode and parameter bytes through the registry |
| Lilliput.LilliputD.constructor | lilliputd.js:33-43 | the driver keeps its name, registry and options, and has emitted nothing |
| Lilliput.LilliputD.SetCommand | lilliputd.js:74-154 | computes the write encoding |
| Lilliput.LilliputD.GetCommand | lilliputd.js:156-196 | computes the read encoding |
| Lilliput.LilliputD.Encode | lilliputd.js:50-72 | computes the encoding of the command |
| Lilliput.LilliputD.Decode | lilliputd.js:203-276 | computes the response and emits it exactly once when there is one |
| Samsung.WriteFrame | samsungd.js:120-133 | a write frame has N + 5 bytes: 0xAA, the truncated opcode, id and N, the truncated parameters from offset 4, and last the checksum of the bytes from the opcode on |
| Samsung.ReadFrame | samsungd.js:156-166 | a read frame has 5 bytes: 0xAA, the truncated opcode and id, 0x00 and the checksum of the three bytes after the header |
| Samsung.WriteCommand | samsungd.js:78-141 | `setCommand` gives an encoding exactly when the write resolves; its frame is the write frame of the resolved opcode, the display id and the resolved parameters (N + 5 bytes, parameters from offset 4), and the resolved duration |
| Samsung.ReadCommand | samsungd.js:143-173 | `getCommand` gives an encoding exactly when the read resolves; its frame is the 5-byte read frame of the resolved opcode and the display id, and the resolved duration |
| Samsung.EncodeCommand | samsungd.js:55-76 | special exactly for a leading '#', no object exactly when there is no word character, and otherwise an object with the driver name and the command text |
| Samsung.WriteFrameLayout | samsungd.js:120-133 | N + 5 bytes: 0xAA, opcode, id, N, the truncated parameters, then the checksum of the bytes from the opcode on |
| Samsung.ReadFrameIsEmptyWrite | samsungd.js:156-166 | a read frame is the 5-byte write frame with no parameters |
| Samsung.ChecksumExcludesHeader | samsungd.js:128-132 | summing the header too would change the checksum by exactly 0xAA modulo 256 |
| Samsung.AssembleWrite | samsungd.js:120-133 | the appends and the checksum loop from index 1 build the write frame |
| Samsung.AssembleRead | samsungd.js:156-166 | the appends and the checksum loop from index 1 build the read frame |
| Samsung.EncodeShape | samsungd.js:55-76 | as for Lilliput, with frames addressed to the driver's display id |
| Samsung.WriteNeedsWriteMode | samsungd.js:84-86 | a write to an entry without 'w' gives no frame, while a read of it does |
| Samsung.Durations | samsungd.js:81-90 | a frame's duration is the entry's override when present, else the option |
| Samsung.StartOf | samsungd.js:181-183 | the index of the first 0xAA, or none |
| Samsung.DecodeResponse | samsungd.js:180-193 | a response needs a 0xAA, and carries the driver name, the raw buffer and a status |
| Samsung.DecodeFilters | samsungd.js:180-198 | a response exactly when a 0xAA exists and the byte two after it is the display id. The response keeps the name and buffer, with status OK exactly when the byte four after 0xAA is 'A' |
| Samsung.DecodeSkipsNoise | samsungd.js:181-186 | prepending bytes other than 0xAA changes only the raw buffer of the response |
| Samsung.PayloadSlice | samsungd.js:194-199 | the payload is the `L - 2` bytes from offset 6, clamped to the buffer; a length byte below 2 gives none |
| Samsung.DecodeReply | samsungd.js:180-251 | a reply frame for this display decodes to its status, and to its r-cmd and values as the registry maps them |
| Samsung.DecodeLaidOut | samsungd.js:180-251 | the same for any buffer holding those bytes at those offsets |
| Samsung.SamsungD.constructor | samsungd.js:38-48 | the driver keeps its name, display id, registry and options, and has emitted nothing |
| Samsung.SamsungD.SetCommand | samsungd.js:78-141 | computes the write encoding for the display id |
| Samsung.SamsungD.GetCommand | samsungd.js:143-173 | computes the read encoding for the display id |
| Samsung.SamsungD.Encode | samsungd.js:55-76 | computes the encoding of the command |
| Samsung.SamsungD.Decode | samsungd.js:180-252 | computes the response; emits it once, and emits nothing for another display's reply |
| Examples.StatusFrameExample | lilliputd.test.js:42-47 | the read frame of opcode 254 is `5a0b002001ff0000fe83dd` |
| Examples.AudioFrameExample | lilliputd.test.js:35-40 | the write frame of opcode 3 with 50, 16, 16 is `5a0e002001ff000003321010dddd` |
| Examples.ScanStatus | lilliputd.test.js:43 | `status?` scans as name `status`, a read, with no parameter text |
| Examples.ScanAudio | lilliputd.test.js:36 | `audio 50,Level,2-1` scans as name `audio`, a write, with text `50,Level,2-1` |
| Examples.AudioParameters | lilliputd.test.js:36 | that text gives the parameters `50`, `Level`, `2-1` |
| Examples.AudioPlan | lilliputd.test.js:35-40 | in the sample registry these resolve to opcode 3 and the numbers 50, 16, 16 |
| Examples.EncodeStatus | lilliputd.test.js:42-47 | `encode('status?')` gives the expected frame, the driver name and the default duration |
| Examples.SamsungStatusFrameExample | samsungd.js:156-166 | the Samsung read frame of opcode 254 for the default display id 0 is `aafe0000fe` |
| Examples.SamsungEncodeStatus | samsungd.js:9-11 | `encode('status?')` for a Samsung driver with the default name and id gives that frame and the default duration |
| Examples.EncodeAudio | lilliputd.test.js:35-40 | `encode('audio 50,Level,2-1')` gives the expected frame, the driver name and the default duration |

## Left out

- Commands starting with '#' go to the base driver's `special`, which is not part of this model; `Encode` returns `Special` for them.
- The transport is not modelled: the stream, the connection, the splitter with its timeout, and `disconnect`. The base `raw-device` driver is not part of this model either.
- Loading the XML data file is not modelled, nor the race of its asynchronous parse with the first command. The registry is a parameter. The data files are not part of this model, so the example registry is rebuilt from the frames the tests expect.
- `console.log` output is left out: it is only diagnostics.
- The event emitter is modelled only as a ghost record `events` of emitted results.
- `encodedStr` is not modelled: it repeats `encoded` as a string.
- Text.JsNumber: decimal digits only. Hexadecimal, exponents, signs, fractions and `Infinity` are NaN here, while JavaScript accepts them.
- Text.ParseInt: decimal digits only, with no sign and no radix prefix.
- Text.Upper: ASCII case mapping only, with no Unicode case rules. Text.Lower, used for the name lookup, is ASCII-only in the same way, so names differing only in non-ASCII case do not match here. Text.IsSpace likewise covers only ASCII white space.
- Commands.WritePlan: requires `WriteDefined`. A non-numeric parameter without a value def at its position makes the source throw a TypeError, which is not modelled.
- Commands.Interpret: requires `ReadingDefined`. A single def holding a single non-array item makes the source call `find` on an object and throw a TypeError.
- Lilliput.LilliputD.Decode: requires `DecodeDefined` for the same TypeError, and so does Samsung.SamsungD.Decode.
- Lilliput.LilliputD.Encode and Samsung.SamsungD.Encode require `EncodeDefined` for the write TypeError.
- Registry.Command: the `name` attribute of an entry, and of every item, is taken to be present, and so is `mode`. Without them the source throws when looking up a name, an alias or a write. Absent `code` attributes and item `value` attributes are modelled as `None` (JavaScript's `undefined`), which `Number` reads as NaN and `parseInt` as NaN. The duration attributes only meet truth tests, so an absent one is the empty string.
- Commands.Plan: parameter numbers are unbounded naturals, truncated to 8 bits only when framed. Floating-point precision of very large numbers is not modelled.
- Lilliput.LilliputD: the address `id` the source stores is never used by the Lilliput frame, so it is not kept.
- Samsung.ForMe: the source compares the id with a loose `!=`; the model compares numbers, so a string id equal as a number is not modelled.
- Examples: the source-selection and picture encoder tests and the decoder test are not reproduced. They depend on registry entries from the data file.
- Behaviour of the code that is easy to misread, and how the model renders it:
  - a read ignores the entry's mode;
  - `Number("")` is 0, so an empty parameter sends the byte 0;
  - opcodes and parameters are truncated to 8 bits, never range-checked;
  - an input that makes the code throw is excluded by a precondition, not turned into "no result".
