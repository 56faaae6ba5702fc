# JT/T 808 terminal, converter and wire layer — a Dafny model

This project models the JT/T 808 part of a GPS tracking system. The system has three pieces:

- a terminal-side protocol client (`JT808Protocol`), driven by a GPS simulator;
- a server (`JT808Server`) that accepts terminals over TCP and republishes what they send as MQTT events;
- the wire layer that both of them share.

The model covers:

- **Frame codec.** The XOR check code, the escape rule of section 4.4 of JT/T 808-2013 (0x7e is sent as 0x7d 0x02, 0x7d as 0x7d 0x01) and its lenient inverse, and the hex/BCD string helpers.
- **The `Message` record.** Its body-attribute word, phone-number normalisation, `encode`, `decode`, and the six message builders.
- **Stream splitting.** The rule by which both ends cut a received byte stream into 0x7e-delimited frames.
- **The server.** Its per-client state, the reply each message id gets, the body parsers behind each MQTT event, and the event sequence on close.
- **The client.** Its state: the serial-number counter, connection and authentication flags, and the response handlers.
- **Small stateful pieces.** The simulator's batch accumulator and `stop`, the web interface's bounded log list and its error-line test, and the constant tables.

Each module follows one source file, and a few are shared:

| module | models |
|---|---|
| `Packing`, `Bits` | `struct` formats and the bitwise operators the code relies on |
| `Utils` | `jt808/utils.py` |
| `Messages` | the record, `encode` and `decode` of `jt808/message.py` |
| `MessageBuilders` | the `create_*` class methods of `jt808/message.py` |
| `Framing`, `ReceiveLoop` | the frame-cutting loop used by `converter.py` and `jt808/protocol.py` |
| `ConverterPayloads` | the body parsers of `converter.py` |
| `Converter` | the `JT808Server` class of `converter.py` |
| `Protocol` | `jt808/protocol.py` |
| `Simulator` | `simulator.py` |
| `WebLog` | `main.py` |
| `Constants` | `jt808/constants.py` |

Where the code departs from JT/T 808-2013, the model follows the code:

- **The header is not the standard's.** The header written is `>HH6sHH`: 14 bytes holding the id, the attributes, 6 ASCII phone bytes, the serial and a zero word. The standard's header is 12 bytes with a BCD phone number.
- **`decode` never yields a message.** It unpacks those 14 bytes from a 12-byte slice, so every input ends in an exception.
- **Dispatch is modelled on a `Message` value.** Because `decode` always raises, neither end of the live system ever reaches its dispatch code. `HandleDecoded`, `ProcessMessage` and `Route` model what that code does with a message once it has one.
- **The location and batch parsers always raise.** They unpack 21 bytes (`>IIIIHHB`) from a 19-byte slice.
- **A client's thread loses track of its buffer.** `_handle_client` appends received data to the bytearray it took from the client's entry when it started. `_process_buffer` stores a new bytearray in that entry as soon as it drops junk or cuts a frame. From then on, received data goes to a bytearray nothing reads, and no later frame from that client is cut. `ClientInfo.attached` and `HandleData` model this.

Integers are unbounded. Every `struct` width is checked explicitly, and an out-of-range value becomes an error result, where Python raises `struct.error`. The serial counter wraps modulo 0xFFFF, as the code does.

## Model

| member | source | states |
|---|---|---|
| Bits.XorZero | jt808/utils.py:35-38 | 0 is the identity of the byte XOR the check code folds with |
| Bits.XorCommutes | jt808/utils.py:35-38 | the byte XOR is commutative |
| Bits.XorSelf | jt808/utils.py:35-38 | a byte XOR-ed with itself is 0 |
| Bits.XorAssociates | jt808/utils.py:35-38 | the byte XOR is associative, so the fold's grouping does not matter |
| Bits.XorCancels | jt808/utils.py:35-38 | XOR-ing with the same byte twice gives back the other operand |
| Bits.SetFlag4Bits | jt808/message.py:252-253 | `status \|= 0x4` sets bit 2 and keeps bit 3, the bits below and the bits above |
| Bits.SetFlag8Bits | jt808/message.py:254-255 | `status \|= 0x8` sets bit 3 and keeps bit 2, the bits below and the bits above |
| Constants.MessageIdsDistinct | jt808/constants.py:5-29 | no two message identifiers coincide, so dispatch on the id is unambiguous |
| Constants.FlagTablesAreSingleBits | jt808/constants.py:32-53 | every status bit and alarm flag is a single bit, pairwise distinct within its table |
| Utils.CalculateChecksum | jt808/utils.py:25-38 | the loop's result is the left fold of XOR over all bytes starting from 0 |
| Utils.XorOfConcat | jt808/utils.py:25-38 | the check code of `a + b` is the XOR of the check codes of `a` and `b` |
| Utils.ChecksumOfCheckedIsZero | jt808/utils.py:25-38 | data followed by its own check code has check code 0 |
| Utils.ChecksumDetectsOneByteChange | jt808/utils.py:25-38 | changing any one byte changes the check code |
| Utils.ApplyEscapeRules | jt808/utils.py:40-60 | the loop's output is the byte-by-byte escaped form of the input |
| Utils.EscapedConcat | jt808/utils.py:52-60 | escaping distributes over concatenation |
| Utils.EscapedHasNoFlag | jt808/utils.py:52-60 | escaped output never contains 0x7e |
| Utils.EscapedLength | jt808/utils.py:52-60 | escaping adds exactly one byte per 0x7e or 0x7d of the input |
| Utils.RemoveEscapeRules | jt808/utils.py:62-90 | the scanning loop computes the un-escaped form: 7d 02 to 7e, 7d 01 to 7d, any other byte copied |
| Utils.UnescapedAt | jt808/utils.py:74-90 | one step of the scan from a position: a recognised pair yields one byte and skips two, anything else is copied |
| Utils.UnescapeEscape | jt808/utils.py:40-90 | un-escaping undoes escaping for every byte string |
| Utils.UnescapedNoLonger | jt808/utils.py:74-90 | un-escaping never lengthens its input |
| Utils.UnescapeLenient | jt808/utils.py:74-90 | a 0x7d followed by a byte other than 01 or 02, or at the very end, is copied through |
| Utils.HexDigit | jt808/utils.py:15-17 | a nibble is written as a lowercase hex digit that reads back as the nibble |
| Utils.BytesToBcd | jt808/utils.py:15-17 | two lowercase hex digits per byte |
| Utils.FromHex | jt808/utils.py:19-23 | `bytes.fromhex` yields one byte per digit pair |
| Utils.FromHexOfBcd | jt808/utils.py:15-23 | `bytes.fromhex` reads back the digits `bytes_to_bcd` writes |
| Utils.BcdRoundTrip | jt808/utils.py:15-23 | `bcd_to_bytes(bytes_to_bcd(x)) == x` |
| Utils.OddBcdGetsLeadingNibble | jt808/utils.py:19-23 | an odd-length digit string decodes as if a '0' were put in front: its first byte is the first digit's value |
| Utils.AllHexDecodes | jt808/utils.py:19-23 | an even-length string of hex digits always decodes |
| Utils.ReversePairs | jt808/utils.py:9-13 | reversing the digit pairs keeps the length |
| Utils.ReversePairsConcat | jt808/utils.py:9-13 | reversing the pairs of `a + b` gives the reversed `b` followed by the reversed `a` |
| Utils.ReversePairsTwice | jt808/utils.py:9-13 | reversing the pairs twice is the identity |
| Utils.ReverseHexInvolution | jt808/utils.py:9-13 | `reverse_hex` accepts every even-length string and applying it twice gives the string back |
| Utils.DmsRoundTrip | jt808/utils.py:120-128 | the integer split of `dms_to_decimal` recovers degrees, minutes and seconds packed by `decimal_to_dms` when minutes and seconds are below 100 |
| Packing.U16 | jt808/message.py:86-97 | `>H` is two bytes whose big-endian value is the number |
| Packing.FixedField | jt808/message.py:193-203 | `Ns` gives exactly N bytes: the string's bytes where it has them, NUL after |
| Packing.AsciiEncode | jt808/message.py:193-203 | `encode('ascii')` succeeds exactly on ASCII strings and keeps each code |
| Packing.AsciiDecode | converter.py:392-422 | `decode('ascii')` succeeds exactly when no byte exceeds 0x7f and keeps each code |
| Messages.BodyAttrFields | jt808/message.py:36-46 | below 1024 bytes, bits 0-9 hold the body length, bit 10 is set iff encrypted, bit 13 iff sub-packaged, bits 11, 12 and 14 up are clear |
| Messages.BodyAttrLengthSpills | jt808/message.py:36-46 | the length is not masked: a body of 1024 to 2047 bytes reads as encrypted |
| Messages.DigitsOnly | jt808/message.py:62-66 | `re.sub(r'\D', '', s)` yields only digits and no more characters than `s` |
| Messages.DigitsOnlyOfDigits | jt808/message.py:62-66 | stripping non-digits leaves a digit string unchanged |
| Messages.NormalizePhone | jt808/message.py:57-84 | the phone string used is always exactly 12 digits |
| Messages.FitPhone | jt808/message.py:72-78 | the fitted string is 12 digits |
| Messages.FitPhoneKeeps | jt808/message.py:72-78 | fitting keeps the last 12 digits, or all of them behind leading zeros |
| Messages.NormalizePhoneKeepsDigits | jt808/message.py:57-84 | the phone's digits survive normalisation (the last 12, or all behind zeros); the random replacement is used only when there are none |
| Messages.PhoneFieldIsFirstSixDigits | jt808/message.py:86-89 | the 6-byte header field holds the ASCII codes of the first six normalised digits |
| Messages.PhoneFieldCollides | jt808/message.py:86-89 | two phones whose normalised forms share the first six digits get the same header field |
| Messages.Encode | jt808/message.py:48-109 | encoding succeeds exactly when every header field fits its `struct` format, else raises `struct.error` |
| Messages.HeaderLayout | jt808/message.py:86-97 | the header is 14 bytes (id, attributes, phone field, serial, 0), and 18 with the (total, sequence) block, which is present only when both the flag and the pair are |
| Messages.EncodeFraming | jt808/message.py:100-109 | an encoded message starts and ends with 0x7e, holds no other, and un-escapes to header, body and check code |
| Messages.Decode | jt808/message.py:112-174 | decoding always fails; the framing error happens exactly when a 0x7e is missing at either end; a check-code error carries two different codes; a short frame is below 12 bytes |
| Messages.DecodeOfEncode | jt808/message.py:123-146 | an encoded frame passes framing, un-escaping, the check code and the length test, and fails only at the header unpack |
| MessageBuilders.CreateHeartbeat | jt808/message.py:178-182 | id 0x0002, empty body (attribute word 0), encodable exactly when the serial fits 16 bits |
| MessageBuilders.CreateAuthentication | jt808/message.py:208-217 | builds exactly when the code is shorter than 256 bytes; the body is the length byte, then the code |
| MessageBuilders.CreatePlatformGeneralResponse | jt808/message.py:320-328 | builds exactly when the three fields fit; the body is acked serial, acked id, result |
| MessageBuilders.CreateRegistration | jt808/message.py:185-205 | builds exactly when the strings are ASCII, the numbers fit and the plate is below 256 bytes; the body is 37 fixed bytes, the plate length and the plate |
| MessageBuilders.RegistrationLayout | jt808/message.py:193-203 | province at 0, city at 2, the three padded text fields at 4, 9 and 29, colour at 36, plate length at 37, plate from 38 |
| MessageBuilders.HemisphereStatusBits | jt808/message.py:252-255 | bit 2 is raised for south, bit 3 for west, every other bit kept |
| MessageBuilders.InfoItemIntLayout | jt808/message.py:275-287 | an integer item is id, width, big-endian value, with width 2 for ids 0x02-0x04 and 4 for mileage and unknown ids |
| MessageBuilders.InfoItemIsTriple | jt808/message.py:275-291 | every item written is an (id, length, value) triple whose length byte is the value's size |
| MessageBuilders.CreateLocationReport | jt808/message.py:220-293 | the method's result is the report: the fixed part followed by the extra items, or the first failure |
| MessageBuilders.AppendInfoItems | jt808/message.py:275-291 | the loop appends every item's bytes in order, or fails with the first failing item's error |
| MessageBuilders.InfoItemsStep | jt808/message.py:275-291 | one more item appends its bytes, or fails with its error |
| MessageBuilders.PrefixErrorPropagates | jt808/message.py:275-291 | once an item fails, the whole report fails with that error |
| MessageBuilders.LocationFixedLayout | jt808/message.py:258-272 | the fixed part is 27 bytes with alarm, status, coordinates, altitude, speed, direction and the six timestamp bytes at their offsets |
| MessageBuilders.FieldOffsets | jt808/message.py:258-272 | the offsets at which the fixed part's pieces sit once joined |
| MessageBuilders.HexDigitOfValue | jt808/message.py:265-272 | a lowercase hex digit is its own value written back |
| MessageBuilders.HexInt | jt808/message.py:265-272 | `int(pair, 16)` on a pair: an optional sign and one or two digits, so the value lies strictly between -256 and 256, and a negative one starts with '-' |
| MessageBuilders.SignedPairs | jt808/message.py:265-272 | "+7" reads as 7, "-7" as -7 and "-F" as -15; "7-", "-" and "+-" do not parse |
| MessageBuilders.NegativeDatePairRejected | jt808/message.py:257-268 | a negative year, month, day or hour is never packed; once the four pairs are read, `struct.pack` rejects it |
| MessageBuilders.NegativeTimePairRejected | jt808/message.py:257-272 | a negative minute or second is never packed; once the rest is packed and both are read, `bytes` rejects it |
| MessageBuilders.TimestampRoundTrip | jt808/message.py:265-272 | a 12-digit timestamp packs into six bytes (`int(pair, 16)`) that `bytes_to_bcd` turns back into the timestamp |
| MessageBuilders.BcdOfPairs | jt808/utils.py:15-17 | bytes whose nibbles are the digit pairs of `s` are written back as `s` |
| MessageBuilders.LocationReportBody | jt808/message.py:252-293 | a report's body is its 27-byte fixed part followed by the extra items |
| MessageBuilders.FlattenConcat | jt808/message.py:313-315 | joining two lists of locations joins their bytes |
| MessageBuilders.FlattenSlice | jt808/message.py:313-315 | each location's bytes sit, unchanged, right after those of the locations before it |
| MessageBuilders.CreateBatchLocationUpload | jt808/message.py:296-317 | the loop's result is the batch message: type, count, then the locations |
| MessageBuilders.BatchHeader | jt808/message.py:310-315 | the body is the type byte, the number of locations in two bytes, then the locations |
| MessageBuilders.BatchLayout | jt808/message.py:310-315 | every location follows the header in order and unchanged |
| Framing.FindFlag | converter.py:191-212 | `find(b'\x7e', start)` returns the first 0x7e at or after `start`, or none if there is none |
| Framing.FindFlagFirst | converter.py:191-212 | the first 0x7e at or after `start` is what `find` returns |
| Framing.NextStep | converter.py:191-212 | one pass clears a buffer with no 0x7e, keeps an opening 0x7e with no closing one after junk, or cuts junk, a frame and a remainder |
| Framing.WaitShape | converter.py:193-207 | with an opening 0x7e and no closing one, the buffer is junk followed by what stays |
| Framing.CutShape | converter.py:193-212 | with both, the buffer is junk, a frame delimited by 0x7e and a remainder |
| Framing.BeforeFirstFlag | converter.py:193-201 | what precedes the first 0x7e has none, and the rest starts with it |
| Framing.NoClosingFlag | converter.py:204-207 | an opening 0x7e with none after it may stay buffered |
| Framing.ClosingFlag | converter.py:204-212 | up to and including the second 0x7e is a frame |
| Framing.ConcatAppend | converter.py:191-212 | the bytes of two lists of pieces join |
| Framing.FramesAppend | converter.py:191-212 | the frames of two lists of pieces join in order |
| Framing.JunkPiecesBytes | converter.py:198-201 | junk contributes its bytes and no frame |
| Framing.SplitKeepsBytes | converter.py:191-212 | nothing is lost or reordered: junk, frames and the final buffer concatenate to the original buffer |
| Framing.SplitCutPieces | converter.py:191-212 | a cut contributes its junk, its frame, then the pieces of the remainder |
| Framing.CutBytes | converter.py:191-212 | the bytes of a cut's pieces are its junk, its frame and the remainder's bytes |
| Framing.SplitShapes | converter.py:191-212 | every frame is delimited by 0x7e with none inside, junk is non-empty without 0x7e, and the final buffer is at most two bytes or an unterminated frame |
| Framing.SplitOneFrame | converter.py:191-212 | a buffer holding exactly one frame yields that frame and leaves nothing |
| Framing.SplitAfterJunk | converter.py:198-212 | junk before a frame is dropped and the frame is still cut whole |
| Framing.SplitCut | converter.py:191-212 | a cut's frame comes first, then the frames of the remainder |
| Framing.SplitWait | converter.py:204-207 | without a closing 0x7e no frame is cut and everything from the first 0x7e stays |
| Framing.SplitClear | converter.py:193-196 | without any 0x7e no frame is cut and the buffer is cleared |
| Framing.NextStepByFind | converter.py:193-207 | one pass is exactly the two `find` calls the loop makes |
| Framing.SplitKept | converter.py:204-207 | an unterminated tail is left alone by the next pass |
| Framing.InPlacePass | converter.py:191-207 | a loop that never stores a new bytearray cuts no frame: it keeps the buffer as it is or clears it |
| Framing.RestStays | converter.py:191-207 | what a loop leaves buffered goes through the next loop unchanged and in place |
| ReceiveLoop.DecodeErrors | converter.py:219-233 | one decoding error per frame |
| ReceiveLoop.CutFrame | converter.py:191-212 | one pass of the loop shortens the buffer when it cuts a frame, and otherwise leaves what `Split` leaves |
| ReceiveLoop.CutFrames | converter.py:182-233 | the loop leaves the rest `Split` leaves, and every frame it cuts is decoded, in order |
| ReceiveLoop.DecodeErrorsPointwise | converter.py:219-233 | the i-th error is the decoding error of the i-th frame |
| ReceiveLoop.EncodedMessageIsDropped | converter.py:182-233 | a buffer holding one encoded message is cut into that one frame, which fails at the header unpack, leaving nothing buffered |
| ConverterPayloads.UpperHex | converter.py:392-422 | the hex fallback writes two characters per byte |
| ConverterPayloads.Nuls | converter.py:392-422 | the NUL padding of a field |
| ConverterPayloads.StripPadding | converter.py:392-422 | stripping NULs removes exactly the padding from a NUL-free string |
| ConverterPayloads.DecodePadded | converter.py:392-422 | a padded ASCII field decodes to its text followed by NULs |
| ConverterPayloads.FieldRoundTrip | converter.py:392-422 | an ASCII NUL-free string that fits its field is read back unchanged |
| ConverterPayloads.ParseRegistration | converter.py:378-441 | under 32 bytes is rejected, 32 to 36 fail at the colour byte, longer bodies parse; a plate is taken only when it fits |
| ConverterPayloads.RegistrationRoundTrip | converter.py:392-422 | every field the builder writes is read back, for ASCII NUL-free strings that fit their fields |
| ConverterPayloads.ParseFullRegistration | converter.py:392-422 | a body whose length byte covers the rest is read with the rest as the plate |
| ConverterPayloads.ParseAuthentication | converter.py:443-476 | rejected exactly when empty; the code read is never longer than the body |
| ConverterPayloads.AuthenticationRoundTrip | converter.py:451-463 | the code the builder writes is read back |
| ConverterPayloads.LocationFailure | converter.py:478-493 | under 28 bytes is the guard's rejection; anything longer fails at the 21-byte unpack of 19 bytes |
| ConverterPayloads.EncodeItem | converter.py:511-538 | an item is written as id, length, value |
| ConverterPayloads.TripleItem | converter.py:511-538 | bytes forming an (id, length, value) triple are that item's encoding |
| ConverterPayloads.RawItemsConsumePrefix | converter.py:511-538 | the loop reads whole items only, never past the end, and their encoding is exactly the bytes consumed |
| ConverterPayloads.RawItemsShift | converter.py:511-538 | reading from a position sees only what comes after it |
| ConverterPayloads.RawItemsHead | converter.py:511-538 | one item written in front of more bytes is read back first |
| ConverterPayloads.ShortValuesTail | converter.py:511-538 | the items after the first have lengths that fit one byte |
| ConverterPayloads.RawItemsOfEncoding | converter.py:511-538 | items written one after another are read back one after another |
| ConverterPayloads.EncodeRawAppend | converter.py:511-538 | the encoding of two item lists joins |
| ConverterPayloads.BuiltItems | jt808/message.py:275-291 | one item per entry of the extra-item dictionary |
| ConverterPayloads.InfoItemsLast | jt808/message.py:275-291 | the last item's bytes follow those of the others |
| ConverterPayloads.BuiltItemsLast | jt808/message.py:275-291 | the last built item is the builder's last triple, split into id and value |
| ConverterPayloads.BuiltItemsEncoding | jt808/message.py:275-291 | the builder's extra-item bytes are the encoding of the built items |
| ConverterPayloads.ExtraItemsRoundTrip | converter.py:511-538 | read from their start, the extra items the builder wrote are recovered in order |
| ConverterPayloads.ExtraItemsMisaligned | converter.py:511-538 | on a built report the loop starts one byte into the first item (offset 28 against a 27-byte fixed part) and takes that item's length byte for an id |
| ConverterPayloads.FirstReadIsLength | converter.py:511-538 | one byte into encoded items, the first id read is the first item's length |
| ConverterPayloads.StoreItemsKeys | converter.py:511-538 | the dictionary's keys are exactly the keys of the items read |
| ConverterPayloads.ParseAdditionalInfo | converter.py:511-538 | the loop stores, from offset 28, every item the reader finds, later ones overwriting earlier ones with the same key |
| ConverterPayloads.NoMoreItems | converter.py:514-521 | the loop stops where no complete item starts |
| ConverterPayloads.StoreOneItem | converter.py:514-538 | one pass stores the item at `pos` and goes on after it |
| ConverterPayloads.ParseBatch | converter.py:589-674 | under 3 bytes is rejected; otherwise it publishes only when no location is announced or fewer than 28 bytes follow, and then with no locations |
| ConverterPayloads.BatchOfBuilder | converter.py:599-627 | a built batch is published only when it is empty or its locations total fewer than 28 bytes |
| Converter.SlashAfter | converter.py:368-376 | in `d + "/" + k` with no '/' in `d`, the first '/' follows `d` |
| Converter.TopicInjective | converter.py:368-376 | device ids without '/' give every device and kind a topic of its own |
| Converter.FirstNonEmpty | converter.py:224-230 | the first non-empty phone number: non-empty exactly when some number is, and one of them |
| Converter.IdentifiedByFirst | converter.py:224-230 | over any run of messages a known device id is kept, and an unknown one becomes the first non-empty phone number |
| Converter.RegistrationResponse | converter.py:306-338 | builds exactly when serial, result and code fit; the body is serial, result, code length and code |
| Converter.ReplyContents | converter.py:251-285 | registration gets 0x8100 with its serial, result 0 and "123456"; the five known ids get result 0 echoing serial and id; others get result 3 |
| Converter.AuthenticationNotChecked | converter.py:263-266 | authentications differing only in their codes get the same reply, result 0 |
| Converter.PublicationsShape | converter.py:361-708 | each handled message emits nothing or its event followed by a status, "offline" for logout and "online" otherwise |
| Converter.JT808Server.constructor | converter.py:65-82 | no clients and nothing sent, published or logged |
| Converter.JT808Server.Accept | converter.py:138-142 | a new client has an empty buffer, still shared with its thread, and no device id |
| Converter.JT808Server.ProcessBuffer | converter.py:182-237 | the client's buffer becomes what `Split` leaves, which may stay buffered; every frame cut is decoded in order; the buffer stops being shared with the thread when junk is dropped or a frame is cut; nothing else changes |
| Converter.JT808Server.StoreBuffer | converter.py:199-212 | the client's buffer is replaced, a new bytearray unshares it, and nothing else changes |
| Converter.JT808Server.HandleData | converter.py:153-180 | no data closes the client; otherwise the data is appended only while the buffer is still shared, then the buffer is processed; once it is unshared, new data changes nothing |
| Converter.JT808Server.PublishStatus | converter.py:693-708 | one status publication on `{prefix}/{device}/status` |
| Converter.JT808Server.PublishWithStatus | converter.py:361-376 | the event, then the status |
| Converter.JT808Server.PublishRegistration | converter.py:378-441 | the event and the status only when the body parses |
| Converter.JT808Server.PublishAuthentication | converter.py:443-476 | the event and the status only for a non-empty body |
| Converter.JT808Server.PublishBatchLocation | converter.py:589-674 | the event and the status only when the batch loop finishes |
| Converter.JT808Server.SendReply | converter.py:287-304 | the encoded reply is written, or nothing when it cannot be built |
| Converter.JT808Server.ProcessMessage | converter.py:239-285 | the reply to the sender, then the handler's publications under the client's label ("unknown" before identification) |
| Converter.JT808Server.HandleDecoded | converter.py:219-233 | the device id is set if none was known, then the message is processed |
| Converter.JT808Server.CloseClient | converter.py:340-359 | "offline" is published only for an identified device, then the client is forgotten |
| Protocol.NextSerial | jt808/protocol.py:77-80 | the next serial is in 0..0xFFFE |
| Protocol.ModOf | jt808/protocol.py:77-80 | quotient and remainder by 0xFFFF are unique |
| Protocol.SerialAfterClosedForm | jt808/protocol.py:77-80 | `k` calls from a serial in range add `k` modulo 0xFFFF |
| Protocol.SerialPeriod | jt808/protocol.py:77-80 | no serial repeats within 0xFFFF consecutive messages, and the 0xFFFF-th repeats the first |
| Protocol.FirstSerials | jt808/protocol.py:77-80 | the first serial is 1, the 0xFFFE-th is 0xFFFE, the next wraps to 0 |
| Protocol.Transmitted | jt808/protocol.py:82-103 | at most one frame, written exactly when connected and the message encodes |
| Protocol.PlainEncodable | jt808/protocol.py:82-103 | a message without flags whose fields fit 16 bits encodes |
| Protocol.UsableCount | jt808/protocol.py:290-301 | the usable tuples are no more than the tuples |
| Protocol.BatchBodiesCount | jt808/protocol.py:290-301 | when every report builds, one body and one serial per tuple of seven fields or more |
| Protocol.TupleReportBody | jt808/protocol.py:290-301 | a report's body does not depend on its serial |
| Protocol.BatchBodiesIgnoreSerial | jt808/protocol.py:290-301 | the batch's contents do not depend on the counter |
| Protocol.ShortTupleSkipped | jt808/protocol.py:290-301 | a tuple of fewer than seven fields adds no body and consumes no serial |
| Protocol.BatchErrorSticks | jt808/protocol.py:290-301 | once a report fails, the batch fails with that error |
| Protocol.BatchSend | jt808/protocol.py:276-308 | only the serial and the sent frames change, nothing is sent when disconnected, and a built batch carries the usable count |
| Protocol.BatchSendAccounting | jt808/protocol.py:290-305 | the header counts exactly the usable tuples, and the counter advances by that count plus one |
| Protocol.RegistrationCodeRoundTrip | jt808/protocol.py:177-196 | the terminal reads back the code the converter's registration reply carries, and only on result 0 |
| Protocol.ConverterRepliesToTerminal | jt808/protocol.py:162-196 | the converter's reply to a registration hands over "123456", and its reply to a message counts as a successful authentication exactly when the message was one |
| Protocol.JT808Protocol.constructor | jt808/protocol.py:20-40 | not connected, not authenticated, serial 0, no code, empty queue and buffer |
| Protocol.JT808Protocol.Connect | jt808/protocol.py:42-61 | nothing when already connected; otherwise connected exactly when the server is reachable, with an empty buffer |
| Protocol.JT808Protocol.Disconnect | jt808/protocol.py:63-75 | a connected protocol becomes disconnected and unauthenticated; otherwise nothing changes |
| Protocol.JT808Protocol.NextSerialNo | jt808/protocol.py:77-80 | returns and stores the next serial |
| Protocol.JT808Protocol.SendMessage | jt808/protocol.py:82-103 | true exactly when connected and the message encodes; only then a frame is written |
| Protocol.JT808Protocol.Register | jt808/protocol.py:198-220 | exactly one serial is consumed, even when the builder fails; a built registration is sent when connected |
| Protocol.JT808Protocol.Authenticate | jt808/protocol.py:222-236 | one serial; a code of 256 bytes or more raises, any other is sent when connected |
| Protocol.JT808Protocol.SendHeartbeat | jt808/protocol.py:238-249 | one serial; sent exactly when connected |
| Protocol.JT808Protocol.SendLocation | jt808/protocol.py:251-274 | one serial, then the report is built and sent when connected |
| Protocol.JT808Protocol.SendBatchLocation | jt808/protocol.py:276-308 | result and new state are those of `BatchSend` on the old state |
| Protocol.JT808Protocol.Logout | jt808/protocol.py:310-321 | one serial; an empty 0x0003 message, sent exactly when connected |
| Protocol.JT808Protocol.HandlePlatformResponse | jt808/protocol.py:162-175 | raises exactly for bodies longer than 5 bytes; `authenticated` is set only by a successful acknowledgement of 0x0102 |
| Protocol.JT808Protocol.HandleRegistrationResponse | jt808/protocol.py:177-196 | on result 0 with a complete code the code is kept and an authentication is sent; otherwise nothing changes |
| Protocol.JT808Protocol.Route | jt808/protocol.py:141-155 | 0x8001 is not queued: it raises exactly for a body over 5 bytes and may only set `authenticated`; 0x8100 is not queued: it changes nothing unless a code is read, and then stores the code and sends one authentication with the next serial; anything else is queued in order and changes nothing else |
| Protocol.JT808Protocol.Receive | jt808/protocol.py:105-160 | no data disconnects; otherwise the data is buffered, the buffer becomes what `Split` leaves and each frame's decoding error is logged |
| Protocol.JT808Protocol.ReceiveMessage | jt808/protocol.py:323-336 | the oldest queued message, or none when the queue is empty |
| Simulator.GPSTrackingSimulator.constructor | simulator.py:34-78 | not running, nothing pending, a fresh protocol |
| Simulator.GPSTrackingSimulator.HandleBatchReporting | simulator.py:228-244 | the tuple is appended and counted; a full list is sent as one batch and emptied; with batch size at least 1, the pending list stays below it and every sent batch has exactly that size; no tuple is lost or reordered |
| Simulator.GPSTrackingSimulator.SendPending | simulator.py:241-244 | the pending tuples go out as one batch; the list is emptied unless the send raised |
| Simulator.GPSTrackingSimulator.Stop | simulator.py:150-165 | nothing when not running; otherwise stops, logs out if authenticated and disconnects; pending and reported locations are kept, so the batch invariant holds |
| Simulator.ConcatAppend | simulator.py:231-244 | a batch handed over lands after every earlier one |
| WebLog.ContainsAt | main.py:78-83 | an occurrence anywhere makes `sub in s` hold |
| WebLog.LogEntry | main.py:78-83 | an empty line is not logged; a line is filed under "ERROR" exactly when it contains one of the four keywords |
| WebLog.KeywordCase | main.py:78-83 | the test is case-sensitive: "ERROR" is not an error line, "Errors" is |
| WebLog.LogList.constructor | main.py:58-63 | an empty list |
| WebLog.LogList.Add | main.py:58-63 | the message becomes the last line; on overflow the oldest is dropped; a list of at most 100 lines stays within 100; the other lines keep their order |
| WebLog.LogList.AddOutputLine | main.py:65-104 | a non-empty line is added with its prefix, an empty one is not |

## Left out

- Sockets, threads and sleeps are not modelled: `start`, `stop` and the accept and client loops of `converter.py`, the `recv`/`sendall` calls, and the simulator's start, tick and monitor loops. What is sent or published is appended to a log. The outcome of `connect` and the data of each `recv` are parameters.
- MQTT publishing and JSON are not modelled. A publication is a topic with an abstract event; the success and failure logging of `_publish_mqtt` is left out.
- Floating point is not modelled: the fractional part of `decimal_to_dms`, the final sum of `dms_to_decimal`, the `/10.0` scalings of the publishers and the simulator's position walk. A coordinate enters the builder as the integer `decimal_to_dms` would return. Speed and direction are integers in the model; see the next line for the floats the simulator passes instead.
- MessageBuilders.CreateLocationReport, Protocol.JT808Protocol.SendLocation, Protocol.JT808Protocol.SendBatchLocation and Simulator.GPSTrackingSimulator.HandleBatchReporting take speed and direction as integers. A moving simulator, the default (`move` is true, simulator.py:58 and 283), replaces both with floats on every tick (simulator.py:199, 256 and 260). `struct.pack` rejects a float in its `H` and `B` fields with `struct.error` (jt808/message.py:257-265), so in the running system every report from a moving simulator fails. In batch mode the failure comes before `batch_locations` is emptied, so every later full tick fails again. The model does not capture this: with integer speed and direction, its reports build whenever the other fields fit.
- The clock and randomness are parameters: the current timestamp, the time-based default serial of the builders and the random phone replacement. `get_current_timestamp` and `parse_bcd_timestamp` are not part of this model.
- Strings are modelled as ASCII only. Python's `isdigit` also accepts non-ASCII digits, and `int(s, 16)` and `bytes.fromhex` accept surrounding whitespace; neither is modelled. The sign `int(s, 16)` accepts is modelled.
- The plate and the authentication code are kept as bytes. Their UTF-8 encoding and decoding is not modelled, nor the exception a non-UTF-8 code raises in `_handle_registration_response`.
- Dispatch is not reached by the live receive loops, since `decode` never yields a message. It is modelled on a `Message` value by `HandleDecoded`, `ProcessMessage` and `Route`, and the dead statements after the unpack in `decode` are not modelled.
- The success paths of the location and batch publishers are not modelled, since their 21-byte unpack of a 19-byte slice always raises. The status and alarm flag maps and the tracking topic are only reachable from there. The extra-item loop that sits on that path is modelled on its own (`ParseAdditionalInfo`), and the value it stores for mileage, fuel and speed is the raw integer in tenths rather than the float.
- Converter.JT808Server.ProcessMessage: the reply and the publications are kept in two separate logs, so their relative order across the two is not recorded.
- Converter.JT808Server.ProcessBuffer: the buffer is stored once at the end, where the Python code rebinds the dictionary entry after every pass; the final value is the same. Whether the entry now holds a new bytearray is decided by the first pass (`Rebinds`), which is the only pass that can leave it in place.
- Converter.JT808Server.HandleData: the bytearray the thread appends to after unsharing is not kept, since nothing reads it; the exception path of the loop and the `running` flag are not modelled.
- Protocol.JT808Protocol.SendBatchLocation: one timestamp (the parameter of `BatchBodies`) stands for every report of a batch, where `send_batch_location` (jt808/protocol.py:296-299) reads the clock again for each report; reports built in different seconds are not modelled.
- Protocol.JT808Protocol.Disconnect: after the server closed the connection the flag `authenticated` is left as it was, so the general contract promises only `!connected` beyond the two cases it spells out.
- Protocol.JT808Protocol.ReceiveMessage: the queue's timeout is modelled as an immediate `None` when the queue is empty.
- WebLog.LogList.AddOutputLine: the exception and final-output lines `read_process_output` adds, and the stripping and decoding of each line, are not modelled.
- Sub-package reassembly, authentication-code checks and distance gating do not exist in the code and are not added.
- Flask routes, process control, configuration and the MQTT test scripts are not part of this model.
