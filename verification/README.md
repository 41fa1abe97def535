# Verified models of the FIX codec, the websocket send queue, a JSON tokeniser and an io_uring reader

The project models four parts of the repository and proves what they are for.

**The FIX codec** (`baxter/fix_api`). A message is printed by `FixBuilder` into a `DynamicFmtBuf`, travels
as bytes, is cut into frames by `FixMsgRcvBuf`, parsed by `parseFixMsg` into a `FixMsg`, and broadcast by
`FixMsgParser`.

- `FixEncoding` says what text a message is and `FixBuilder` proves that the in-place builder writes that text.
- `Framing` gives the frames and the leftover of any byte stream and shows that conservation, "each piece is
  exactly one frame" and "the leftover holds none" determine them. `FixMsgRcvBuf` computes them on its array;
  `ReceiveRuns` proves that the way a stream is cut into reads does not matter, and bounds the array.
- `FixScanner` gives the grammar `tag=value<SOH>` that the four pointers implement; `FieldMeaning` and
  `RepeatingGroups` say what the fields leave in a message, `DecimalNumber` which prices are numbers,
  `ParserFaults` where it throws or leaves a vector, `MarketMessages` what whole market-data messages do;
  `MarketExamples` has two of them.
- `RoundTrip` puts these together: whatever is built, concatenated and received in any chunks
  comes back, but for the Symbols of a security list.
- `Checksum`, `DynamicFmtBuf`, `StackAlloc` and `NumPadFmt` are the layers below; `LoginRequest` is the
  stand-alone client's encoder; `FixHandler` has the sequence numbers and the heartbeat timer.

**The send queue** of a websocket session (`Md2ClientSession`), as a transition system over the completions
of its asynchronous operations.

**The nested-array tokeniser** (`JsonTokeniser`) and **the block splitting and completion ring** of the
io_uring demo (`CatIoUring`, `CompletionRing`).

Conventions: a text is a `string`, one `char` for one byte, and the theorems hold for all characters; a
pointer into a buffer is an offset, `NULL` is -1. A failure either `Throws`, or is `Undefined`: an access outside
a vector or a buffer, behind which nothing is promised. Classes keep the fields of the original; ghost fields record what the
environment has seen (messages broadcast, bytes copied, writes started).

## Main results

- Scanner and grammar: `FixScanner.ParseFixMsg` with `TokensSound` and `TokensUnique`; `FieldMeaning.BufferMeaning`.
- Framing and chunks: `Framing.SplitSound`, `SplitUnique`, `SplitResume`; `ReceiveRuns.ChunkingIndependence`,
  `ReadAll`, `AlwaysRoom`, `CapacityBound`.
- Round trip: `RoundTrip.EndToEnd`, `DistinctRecovers`; `FixEncoding.EncodeIsFrame`.
- Repeating groups: `RepeatingGroups.MarketDataRun`; `MarketMessages.MarketArrives`, `StreamEndToEnd`;
  `DecimalNumber.NumberIff`.
- Failures: `ParserFaults.RunFails`, `StopsIff`, `IndexInsideIff`.
- Building: `Builder.Build`, `FixBuilder.Done`; `Login.LoginIsEncode`; `Checksum.GenerateCheckSum`, `CheckSumBytes`.
- Buffers and allocator: `FormatBuffer.DynamicFmtBuf.AppendAll`; `Arena.EveryRun`, `NestedUseRestores`.
- Numbers: `PadNum.FmtUnsigned`, `FmtSigned`, `ZeroPaddedReadBack`.
- Session handler: `Handler.RunNumbers`, `RunsGapFreeIff`, `TimerIff`, `HeartbeatDeadline`.
- Send queue: `SessionQueue.EveryRun`, `EchoesAll`, `NoWriteAfterFailure`.
- Tokeniser: `JsonTokeniser.ArrayLaw`.
- io_uring reader: `Uring.SplitIntoBlocks`, `PrintsTheFile`; `Ring.SlotsDistinct`, `CompletionRing.ReadFromCq`.

Results where the code does less than its documentation or a first reading suggests:

- A market-data message with more groups than `NoMDEntries` announces overwrites its last entry when at least
  one is announced (`MarketMessages.SurplusMessage`). When none is, a snapshot leaves the vector
  (`UnannouncedMessage`), and an incremental message does if and only if a group has an MDEntryType, MDEntryPx,
  MDEntrySize or MDEntryID (`RepeatingGroups.MarketDataRun`).
- A second, smaller `NoMDEntries` can make the next entry field go outside the vector
  (`ParserFaults.IndexInsideIff` has the condition, `ShrinkingFails` a frame).
- A price or size that is no number throws in the middle of `parse` (`ParserFaults.BadPriceThrows`); the messages
  already cut are delivered and the buffer keeps all its bytes (`RcvBuf.FixMsgRcvBuf.Parse`).
- A Symbol behind a MsgType that starts with 'y' is not kept as a field but listed as a security; in front of it
  it is kept (`RoundTrip.DistinctRecovers` is the exact condition, `SymbolListed` and `SymbolInFront` the inputs).
- When fewer than 7 bytes are free `done` writes the right text and returns a wrong range, as long as the buffer is
  still in its arena (`Builder.Build`; `RangeWrong` is a message). In a larger allocation it gives back a pointer that
  was never handed out, unless the header fills its gap exactly (`PointerWrong`). A header of more than 100 bytes,
  or a message larger than the caller's range, leaves the buffers.
- The block count of `cat_io_uring.c` is right if and only if the file is smaller than 2^31 bytes, since the
  cast binds tighter than the division (`Uring.BlocksExact`). Beyond that a negative count makes the allocation
  fail, as at 2^31 itself, and any other makes the splitting loop leave its array, as at 2^32
  (`Uring.SplitIntoBlocks`, `LargeFiles`).
- Doubling a buffer of capacity zero never ends (`FormatBuffer.DoublingReaches`), and a buffer gets there when nothing
  is the first thing appended to it (`ZeroCapacity`).
- An empty block of a full arena is handed back to the secondary allocator (`Arena.ReturnedWhereItCameFrom`,
  `FullArenaGivesEmptyBlock`).
- Zero padding goes in front of the sign, so a negative number is read back if and only if it is not padded
  (`PadNum.ZeroPaddedReadBack`).
- The tokeniser reports nothing for an atom outside every array (`JsonTokeniser.BareAtom`).

## Model

| member | source | states |
|---|---|---|
| Framing.MemMem | baxter/fix_api/FixMsgRcvBuf.hpp:96 | a position it finds lies at or behind the start and holds the needle |
| Framing.MemMemFirst | baxter/fix_api/FixMsgRcvBuf.hpp:96 | any needle is found, or an earlier one |
| Framing.FrameEndInSlice | baxter/fix_api/FixMsgRcvBuf.hpp:91-104 | a frame is recognised wherever it stands and whatever follows it |
| Framing.SplitSound | baxter/fix_api/FixMsgRcvBuf.hpp:94-117 | frames and leftover together are the input; every frame is exactly one frame; the leftover holds none |
| Framing.SplitUnique | baxter/fix_api/FixMsgRcvBuf.hpp:94-117 | there is only one such split of a byte stream |
| Framing.SplitResume | baxter/fix_api/FixMsgRcvBuf.hpp:88-117 | cutting a, keeping the leftover and cutting again when b arrives is cutting a + b |
| RcvBuf.FixMsgRcvBuf.constructor | baxter/fix_api/FixMsgRcvBuf.hpp:31-38 | an empty buffer of the given size |
| RcvBuf.FixMsgRcvBuf.Clear | baxter/fix_api/FixMsgRcvBuf.hpp:80-82 | nothing is kept any more |
| RcvBuf.FixMsgRcvBuf.MoveToFront | baxter/fix_api/FixMsgRcvBuf.hpp:112 | the leftover arrives at the front intact although source and destination may overlap |
| RcvBuf.FixMsgRcvBuf.Compact | baxter/fix_api/FixMsgRcvBuf.hpp:110-136 | the bytes behind the last frame are kept; the array doubles exactly when they fill it |
| RcvBuf.FixMsgRcvBuf.Grow | baxter/fix_api/FixMsgRcvBuf.hpp:120-136 | doubling preserves every byte |
| RcvBuf.FixMsgRcvBuf.Deliver | baxter/fix_api/FixMsgRcvBuf.hpp:94-108 | the loop broadcasts exactly the messages of the frames up to the first that makes the parser throw, and what is left starts where it says; nothing is said once an effect is undefined |
| RcvBuf.FixMsgRcvBuf.Parse | baxter/fix_api/FixMsgRcvBuf.hpp:88-137 | exactly the messages of the complete frames are broadcast, in order, and the leftover is kept; when a frame makes the parser throw, those before it are broadcast and the buffer is as it was |
| ReceiveRuns.ChunkingIndependence | baxter/fix_api/FixMsgRcvBuf.hpp:88-117 | for every byte stream, well formed or not: what is delivered, whether a frame stops the receiver, and otherwise what is kept, depend on the concatenation of the chunks only |
| ReceiveRuns.GrowthMeansUnfinished | baxter/fix_api/FixMsgRcvBuf.hpp:119-136 | the capacity changes only by doubling, only when the whole array is one unfinished frame, and that is kept |
| ReceiveRuns.AlwaysRoom | baxter/fix_api/FixMsgRcvBuf.hpp:119-136 | in every run there is free space after each parse, unless the buffer started with size 0 |
| ReceiveRuns.LeftoverIsShort | baxter/fix_api/FixMsgRcvBuf.hpp:110-117 | on a stream of messages of length at most L the leftover is shorter than L |
| ReceiveRuns.CapacityBound | baxter/fix_api/FixMsgRcvBuf.hpp:119-136 | on such a stream the capacity never exceeds max(initial, 2(L-1)) |
| ReceiveRuns.Read | baxter/fix_api/FixMsgRcvBuf.hpp:51-137 | one read and parse on the array is one step of the receiver on values, also when a frame makes the parser throw |
| ReceiveRuns.ReadAll | baxter/fix_api/FixMsgRcvBuf.hpp:51-137 | for every stream and all fitting chunks: it completes, throws or becomes undefined exactly as the frames of the stream do; the messages up to the frame that throws are broadcast, all of them when none does |
| ReceiveRuns.BytesFit | baxter/fix_api/FixMsgRcvBuf.hpp:119-136 | every stream can be delivered: byte by byte it always fits the free space of a buffer that did not start with size 0 |
| MsgParser.FixMsgParser.Process | baxter/fix_api/FixMsgParser.hpp:72-85 | a frame that parses is broadcast once with its meaning; a rejected one is not, and changes nothing; one that fails is told by how it fails |
| MsgParser.BroadcastAll | baxter/fix_api/FixMsgParser.hpp:72-85 | when no frame makes it fail, the messages of all accepted frames are delivered, rejected ones skipped |
| MsgParser.BroadcastAppend | baxter/fix_api/FixMsgParser.hpp:72-85 | what two stretches of frames deliver: both, or the first alone when it stops |
| MsgParser.EndingAppend | baxter/fix_api/FixMsgParser.hpp:72-85 | how processing two stretches of frames ends: like the first when that stops, else like the second |
| FixMessage.FixMsg.constructor | baxter/fix_api/FixMsg.hpp:211-217 | a message without fields or entries, index -1 |
| FixMessage.FixMsg.Field | baxter/fix_api/FixMsg.hpp:70-120 | the object's method does what the specification of one field says, and fails exactly where that faults |
| FixMessage.Resize | baxter/fix_api/FixMsg.hpp:115 | resizing keeps the entries that stay and adds fresh ones |
| DecimalNumber.NumberIff | baxter/fix_api/FixMsg.hpp:90-95 | a text is taken for a number if and only if it is an optional sign, digits with at most one point and at least one digit, and optionally e or E, an optional sign and at least one digit |
| DecimalNumber.OrdinaryNumbers | baxter/fix_api/FixMsg.hpp:90-95 | digits, with or without a sign, a point and further digits, are a number |
| FixScanner.TokensSound | baxter/fix_api/FixMsg.hpp:222-279 | every text is its well-formed tag=value items followed by an incomplete tail |
| FixScanner.TokensUnique | baxter/fix_api/FixMsg.hpp:222-279 | in exactly one way |
| FixScanner.InterpretFromIsRun | baxter/fix_api/FixMsg.hpp:228-265 | reading field after field by position means the same as running the grammar's items |
| FixScanner.InterpretPrinted | baxter/fix_api/FixMsg.hpp:222-279 | the meaning of printed items is running them, from any state |
| FixScanner.TagChar | baxter/fix_api/FixMsg.hpp:234-236 | one character of a tag keeps what the four pointers say |
| FixScanner.TagEnds | baxter/fix_api/FixMsg.hpp:237-238 | the first = ends the tag and starts the value |
| FixScanner.ValueChar | baxter/fix_api/FixMsg.hpp:240-241 | one character of a value keeps what the four pointers say |
| FixScanner.FieldComplete | baxter/fix_api/FixMsg.hpp:239-262 | at the delimiter the pointers enclose the tag and value of the grammar's next item; a missing value end is an empty value |
| FixScanner.BufferEnds | baxter/fix_api/FixMsg.hpp:267-277 | the last-field branch is exactly the grammar's tail that ends with '=' |
| FixScanner.StoreField | baxter/fix_api/FixMsg.hpp:246-254 | an empty tag is skipped, one at or above MaxTagNum refused, any other stored |
| FixScanner.StoreLast | baxter/fix_api/FixMsg.hpp:268-277 | the unterminated last field is stored with an empty value or refused |
| FixScanner.EndField | baxter/fix_api/FixMsg.hpp:241-261 | after a field the rest of the text still leads to the same meaning |
| FixScanner.EndBuffer | baxter/fix_api/FixMsg.hpp:267-278 | at the end of the buffer the meaning is reached |
| FixScanner.Scan | baxter/fix_api/FixMsg.hpp:223-279 | the four-pointer loop reaches the meaning of the text it was started on |
| FixScanner.ParseFixMsg | baxter/fix_api/FixMsg.hpp:222-279 | for every buffer and every initial message, result and final message agree with the grammar's meaning |
| FieldMeaning.LastValueIsLast | baxter/fix_api/FixMsg.hpp:109-111 | the value looked up for a tag is that of its last occurrence |
| FieldMeaning.PlainStep | baxter/fix_api/FixMsg.hpp:99-119 | one plain field: refused, collected, or set under its tag |
| FieldMeaning.PlainMeaning | baxter/fix_api/FixMsg.hpp:99-124 | plain fields are refused exactly when a value is empty or a tag too large; otherwise the Symbols behind a security-list MsgType are collected, the others leave the last-wins map, and hasField is true for exactly the tags kept |
| FieldMeaning.TailIsDropped | baxter/fix_api/FixMsg.hpp:267-278 | on a delimiter-terminated buffer the last-field branch is never taken |
| FieldMeaning.BufferMeaning | baxter/fix_api/FixMsg.hpp:222-279 | the same as PlainMeaning for any whole delimiter-terminated buffer |
| FieldMeaning.UnterminatedField | baxter/fix_api/FixMsg.hpp:267-278 | a field without delimiter at the end of a buffer is stored when its value is empty and dropped otherwise |
| RepeatingGroups.GroupsRun | baxter/fix_api/FixMsg.hpp:72-98 | groups fill consecutive entries, each with its own values, every access in bounds |
| RepeatingGroups.FilledAt | baxter/fix_api/FixMsg.hpp:72-98 | the entries after some groups, one by one |
| RepeatingGroups.MarketDataRun | baxter/fix_api/FixMsg.hpp:70-120 | any number of groups against the announced one, snapshot or incremental: at most as many fill the entries one by one; more overwrite the last entry; with none announced the message faults if and only if some item addresses an entry, as every snapshot group does |
| RepeatingGroups.MarketDataSurplus | baxter/fix_api/FixMsg.hpp:72-98 | surplus groups are applied to the last entry on top of its own values |
| RepeatingGroups.MarketDataUnannounced | baxter/fix_api/FixMsg.hpp:72-98 | with no entries announced: when the message faults, and that nothing is stored otherwise |
| RepeatingGroups.SurplusRun | baxter/fix_api/FixMsg.hpp:72-98 | surplus groups change no other entry and not the index |
| RepeatingGroups.EntryOfFields | baxter/fix_api/FixMsg.hpp:72-103 | each part of an entry is the last value its group gives for that tag |
| RepeatingGroups.IndexStaysInside | baxter/fix_api/FixMsg.hpp:73-87 | one field leaves the index below the size if and only if it is no NoMDEntries that shrinks the vector to it |
| ParserFaults.SetFieldFails | baxter/fix_api/FixMsg.hpp:70-120 | the effect of one field is undefined if and only if it needs an entry and none is current, or is empty where its first character is looked at; it throws if and only if it is a price or size of the current entry that is no number |
| ParserFaults.RunFails | baxter/fix_api/FixMsg.hpp:70-120 | a run of fields throws, or becomes undefined, if and only if some field that is reached does so on the message as it then is |
| ParserFaults.IndexInsideIff | baxter/fix_api/FixMsg.hpp:73-116 | throughout a run the index is inside the vector if and only if no field announces fewer entries than are open already |
| ParserFaults.MeaningFails | baxter/fix_api/FixMsg.hpp:222-279 | any text throws, or becomes undefined, if and only if a field that is reached does, or its unterminated last field |
| ParserFaults.StopsIff | baxter/fix_api/FixMsgParser.hpp:72-85 | processing frames throws, or becomes undefined, if and only if behind sound frames comes one that does |
| ParserFaults.ReturnsIff | baxter/fix_api/FixMsgParser.hpp:72-85 | it completes if and only if every frame is sound |
| ParserFaults.ShrinkingFails | baxter/fix_api/FixMsg.hpp:113-116 | a whole frame whose second, smaller NoMDEntries leads outside the vector |
| ParserFaults.BadPriceThrows | baxter/fix_api/FixMsg.hpp:90-92 | a whole frame whose price is no number |
| MarketMessages.MarketArrives | baxter/fix_api/FixMsg.hpp:70-120 | the text of a market-data message, with header and trailer, is one frame, and parsing it stores its groups as MarketDataRun says |
| MarketMessages.MarketFailsIff | baxter/fix_api/FixMsg.hpp:82-98 | it fails if and only if no entries are announced and a group addresses one, otherwise it parses |
| MarketMessages.StreamEndToEnd | baxter/fix_api/FixMsgRcvBuf.hpp:88-137 | ordinary and market-data messages in any order, concatenated and cut into any chunks: all are delivered in order and nothing is left over, if and only if none fails |
| MarketMessages.SurplusMessage | baxter/fix_api/FixMsg.hpp:72-92 | a message that announces one entry and has two groups: the second price is in the first entry |
| MarketMessages.UnannouncedMessage | baxter/fix_api/FixMsg.hpp:82-88 | a snapshot that announces no entries and has one, which fails |
| MarketExamples.EntryIsStored | baxter/fix_api/FixMsg.hpp:82-108 | action, symbol, side, price, size and id of a group are the six parts of its entry, whatever they are |
| MarketExamples.Incremental | baxter/fix_api/FixMsg.hpp:70-120 | a whole incremental message with two groups: the actions 1 and 2, the sides, the prices 100.5 and 7 and the other parts are in the two entries |
| MarketExamples.Snapshot | baxter/fix_api/FixMsg.hpp:70-120 | a whole snapshot whose body is the literal text beginning 35=W: its bid at 100.5 is in the one entry |
| FixEncoding.HeaderText | baxter/fix_api/FixBuilder.hpp:88-90 | the header is the literal text around version and length, made of the fields 8 and 9 |
| FixEncoding.TrailerText | baxter/fix_api/FixBuilder.hpp:100 | the trailer is the literal text around three digits, 7 characters, made of field 10 |
| FixEncoding.EncodeIsItems | baxter/fix_api/FixBuilder.hpp:86-108 | a message is the print of its items: 8, 9 with the body's length, the fields, 10 with the check sum |
| FixEncoding.FirstNeedle | baxter/fix_api/FixMsgRcvBuf.hpp:91-96 | the first needle of printed items stands in front of the first later item with tag 10 |
| FixEncoding.EncodeIsFrame | baxter/fix_api/FixBuilder.hpp:86-108 | values being free of SOH, a message is exactly one frame if and only if no body field has tag 10 |
| FixEncoding.Heartbeat | baxter/fix_api/FixBuilder.hpp:86-108 | a whole message character by character, with its length 5 and its check sum 163 |
| RoundTrip.MessageArrives | baxter/fix_api/FixMsg.hpp:222-279 | an encoded message is one frame, and parsing it yields its fields with 8, 9 and 10, except that the Symbols of a security list are in the list |
| RoundTrip.RejectedIff | baxter/fix_api/FixMsg.hpp:243-252 | an encoded message with ordinary tags is rejected if and only if its version or a value is empty or a tag too large |
| RoundTrip.MessageRoundTrip | baxter/fix_api/FixMsg.hpp:99-111 | every message with acceptable fields is recovered field for field if and only if its last Symbol is kept as a field |
| RoundTrip.DistinctRecovers | baxter/fix_api/FixMsg.hpp:99-111 | with distinct tags: if and only if no Symbol stands behind a MsgType that starts with y; otherwise that Symbol is the one listed security |
| RoundTrip.SymbolListed | baxter/fix_api/FixMsg.hpp:104-107 | a message whose Symbol goes to the list |
| RoundTrip.SymbolInFront | baxter/fix_api/FixMsg.hpp:104-111 | the same fields the other way round, which come back |
| RoundTrip.EndToEnd | baxter/fix_api/FixMsgRcvBuf.hpp:88-137 | any messages, concatenated and cut into any chunks, are delivered in order and nothing is left over; all are recovered field for field if and only if each keeps its last Symbol |
| RoundTrip.Receive | baxter/fix_api/FixMsgRcvBuf.hpp:51-137 | the same for the buffer object and its parser, for chunks that fit the free space |
| RoundTrip.LastOfDistinct | baxter/fix_api/FixBuilder.hpp:36-57 | with distinct tags the last value of a tag is the value of its only field |
| RoundTrip.DistinctFieldsComeBack | baxter/fix_api/FixMsg.hpp:109-124 | with distinct tags every field is found under its tag with its value |
| RoundTrip.NoOtherFields | baxter/fix_api/FixMsg.hpp:109-124 | a recovered message has no field that was not sent, but for 8, 9 and 10 |
| RoundTrip.HeaderAndTrailer | baxter/fix_api/FixBuilder.hpp:86-108 | the received fields 8, 9 and 10 are the version, the length of the body and the check sum of everything in front of the trailer |
| RoundTrip.OrdinaryFields | baxter/fix_api/FixMsg.hpp:70-120 | which fields the round trip is about: those with a value free of SOH and a tag below 9068, except the market-data entry tags and 8, 9 and 10 |
| RoundTrip.TagLimit | baxter/fix_api/FixMsg.hpp:249-252 | a message with the tag 9067 is accepted and has that field, one with 9068 is rejected |
| Checksum.AccumulateStep | baxter/fix_api/FixBuilder.hpp:115 | neither sign extension nor 32-bit wrap-around shows modulo 256 |
| Checksum.GenerateCheckSum | baxter/fix_api/FixBuilder.hpp:112-117 | the accumulator loop yields the sum of the unsigned bytes modulo 256, for any length |
| Checksum.CheckSumAppend | baxter/fix_api/fix_api.cpp:90-95 | the check sum distributes over concatenation |
| Checksum.CheckSumBytes | baxter/fix_api/FixBuilder.hpp:112-117 | the check sum of nothing is 0, of one byte its value modulo 256, and each further byte adds its value, delimiters included |
| Checksum.CheckSumDigits | baxter/fix_api/FixBuilder.hpp:100 | below 1000 it prints as exactly three digits |
| Builder.FixBuilder.constructor | baxter/fix_api/FixBuilder.hpp:28-33 | an empty body behind a gap of 100 bytes |
| Builder.FixBuilder.WriteTag | baxter/fix_api/FixBuilder.hpp:36-57 | tag and = are appended |
| Builder.FixBuilder.WriteValue | baxter/fix_api/FixBuilder.hpp:39-41 | value and delimiter are appended |
| Builder.FixBuilder.BodyString | baxter/fix_api/FixBuilder.hpp:39-41 | the body grows by exactly the text of the field, across reallocations, and by how much room is asked for |
| Builder.FixBuilder.BodyUnsigned | baxter/fix_api/FixBuilder.hpp:46-48 | the same for an unsigned number |
| Builder.FixBuilder.PlaceHeader | baxter/fix_api/FixBuilder.hpp:91-97 | the header copied into the gap ends right where the body starts |
| Builder.FixBuilder.Finish | baxter/fix_api/FixBuilder.hpp:98-107 | trailer, copy and returned range once the header is in place: the text is right, and the range if and only if 7 bytes were free |
| Builder.FixBuilder.Complete | baxter/fix_api/FixBuilder.hpp:88-107 | the same from the header on: when the original leaves its buffer or gives back a wrong pointer, when the range is right and when it is not |
| Builder.AppendTrailer | baxter/fix_api/FixBuilder.hpp:98-100 | the trailer carries the check sum of everything in front of it, also when the buffer grows while its beginning is displaced, which it does exactly when fewer than 7 bytes are free |
| Builder.MakeHeader | baxter/fix_api/FixBuilder.hpp:88-90 | the header buffer holds the header, of any length |
| Builder.FixBuilder.Done | baxter/fix_api/FixBuilder.hpp:86-108 | broken for a header of more than 100 bytes or a text longer than the range given, and when fewer than 7 bytes are free beyond the arena behind a shorter header; otherwise exactly the encoded message is written, and the returned range is right if and only if 7 bytes were free |
| Builder.RangeEndIff | baxter/fix_api/FixBuilder.hpp:106-107 | the address arithmetic of the returned range |
| Builder.AddFields | baxter/fix_api/FixBuilder.hpp:36-57 | adding field after field leaves their text and the peak of the room asked for |
| Builder.Build | baxter/fix_api/FixBuilder.hpp:28-108 | for every message, in terms of its header, its text and the capacity grown to: the same four cases; with a header of at most 100 bytes, a large enough range and 7 free bytes exactly the wire text is written and its length returned |
| Builder.SmallFits | baxter/fix_api/FixBuilder.hpp:22-33 | in the reserved 1100 bytes it does whenever the text fits |
| Builder.RangeWrong | baxter/fix_api/FixBuilder.hpp:92-107 | a message of 992 characters in the arena, whose text is written and whose range is wrong |
| Builder.PointerWrong | baxter/fix_api/FixBuilder.hpp:92-104 | a message of 2092 characters, for which a pointer that was never handed out is given back |
| Builder.BeyondArena | baxter/fix_api/FixBuilder.hpp:91-107 | a message of 1500 characters, which outgrows the arena and is built |
| Login.LoginIsEncode | baxter/fix_api/fix_api.cpp:98-128 | the stand-alone client's concatenation is the text FixBuilder makes of the same fields |
| Login.LoginArrives | baxter/fix_api/fix_api.cpp:98-128 | it is one frame, and parsing it yields each of its fields, tag 8013 among them |
| FormatBuffer.DoublingStops | baxter/fix_api/DynamicFmtBuf.hpp:81-85 | the doubling loop stops at enough room or the largest size, and below twice what is needed |
| FormatBuffer.DoubledTwice | baxter/fix_api/DynamicFmtBuf.hpp:78-89 | growing for a bytes and then for b is growing for the larger of the two |
| FormatBuffer.DoublingReaches | baxter/fix_api/DynamicFmtBuf.hpp:81-85 | doubling ever makes room if and only if the capacity is not zero |
| FormatBuffer.ZeroCapacity | baxter/fix_api/DynamicFmtBuf.hpp:71-77 | how a buffer gets capacity zero, and that it can never take a byte then |
| FormatBuffer.GrowthAccounts | baxter/fix_api/DynamicFmtBuf.hpp:78-95 | what a growth copies stays within what the capacity gains, and the capacity is that of the largest size asked for |
| FormatBuffer.DynamicFmtBuf.Empty | baxter/fix_api/DynamicFmtBuf.hpp:25-30 | empty, nothing allocated |
| FormatBuffer.DynamicFmtBuf.constructor | baxter/fix_api/DynamicFmtBuf.hpp:32-38 | empty, with the given capacity |
| FormatBuffer.DynamicFmtBuf.GrowFor | baxter/fix_api/DynamicFmtBuf.hpp:78-96 | a growth preserves the content and makes room, or fails at the largest size |
| FormatBuffer.DynamicFmtBuf.EnsureSpace | baxter/fix_api/DynamicFmtBuf.hpp:71-97 | the content is unchanged, also from a displaced beginning in the arena, and there is room or the buffer has failed; a new capacity is below 2(size + request) |
| FormatBuffer.DynamicFmtBuf.Reallocate | baxter/fix_api/DynamicFmtBuf.hpp:90-95 | a growth preserves the content, wherever its beginning is |
| FormatBuffer.DynamicFmtBuf.Put | baxter/fix_api/DynamicFmtBuf.hpp:211-220 | while good the text is appended; what was there stays |
| FormatBuffer.DynamicFmtBuf.Append | baxter/fix_api/DynamicFmtBuf.hpp:148-209 | while good the piece is appended; what was there stays |
| FormatBuffer.DynamicFmtBuf.Skip | baxter/fix_api/DynamicFmtBuf.hpp:140-146 | the content is extended by n bytes |
| FormatBuffer.DynamicFmtBuf.Rewind | baxter/fix_api/DynamicFmtBuf.hpp:289-296 | a good buffer becomes empty, a failed one stays |
| FormatBuffer.DynamicFmtBuf.AppendAll | baxter/fix_api/DynamicFmtBuf.hpp:71-230 | over any run of operators, with the room each asks for, the content is the concatenation, and all growths together copied at most capacity minus first capacity |
| Arena.StackAlloc.constructor | baxter/fix_api/StackAlloc.hpp:37 | nothing live, ptr_ at the start of the arena |
| Arena.StackAlloc.Allocate | baxter/fix_api/StackAlloc.hpp:53-62 | one step of the heap: the live blocks gain exactly the returned one; disjointness is kept |
| Arena.StackAlloc.Deallocate | baxter/fix_api/StackAlloc.hpp:64-72 | one step of the heap: exactly that block is gone; disjointness is kept |
| Arena.RunKeepsInv | baxter/fix_api/StackAlloc.hpp:53-72 | in every run the non-empty live arena blocks are pairwise disjoint, inside the arena and below ptr_ |
| Arena.FreeKeepsInv | baxter/fix_api/StackAlloc.hpp:64-72 | moving ptr_ back never uncovers a live block, in whatever order blocks are freed |
| Arena.EveryRun | baxter/fix_api/StackAlloc.hpp:53-72 | in every run from an empty arena the non-empty blocks it gave out lie inside it and apart |
| Arena.FittingRequests | baxter/fix_api/StackAlloc.hpp:53-57 | requests that fit together are all served by the arena, one behind the other from ptr_ on |
| Arena.LargeRequest | baxter/fix_api/StackAlloc.hpp:58-61 | one that does not fit leaves ptr_ alone and goes to the secondary allocator |
| Arena.ReturnedWhereItCameFrom | baxter/fix_api/StackAlloc.hpp:65 | the address test finds the allocator that gave the block, except for an empty block of a full arena |
| Arena.FullArenaGivesEmptyBlock | baxter/fix_api/StackAlloc.hpp:53-57 | a run in which a full arena gives out such an empty block |
| Arena.DisplacedFree | baxter/fix_api/StackAlloc.hpp:64-72 | giving back the topmost block from behind its start stays within the arena |
| Arena.NestedUseRestores | baxter/fix_api/StackAlloc.hpp:53-72 | any well-nested run of operations restores ptr_ and the live blocks exactly, even when some requests fall through |
| Arena.NestedUseRuns | baxter/fix_api/StackAlloc.hpp:53-72 | every such nesting is a run that is allowed |
| PadNum.DigitsFit | baxter/fix_api/NumTraits.hpp:11-17 | every value of the type has at most the tabulated number of digits |
| PadNum.Digits | baxter/fix_api/NumPadFmt.hpp:33-37 | the loop ends because the value is used up, and leaves its decimal text |
| PadNum.Pad | baxter/fix_api/NumPadFmt.hpp:39-44 | the padding loop extends the text on the left to the width |
| PadNum.CopyOut | baxter/fix_api/NumPadFmt.hpp:45-50 | the text is written if it fits, else nothing; the returned end is the same |
| PadNum.FmtUnsigned | baxter/fix_api/NumPadFmt.hpp:27-51 | the output is the padded decimal text, or nothing when it does not fit |
| PadNum.FmtSigned | baxter/fix_api/NumPadFmt.hpp:65-93 | the same with a sign, for every value whose magnitude the type can compute |
| PadNum.MagnitudeRange | baxter/fix_api/NumPadFmt.hpp:65-69 | which values have a magnitude: all of char and short, all but the most negative of int and wider |
| PadNum.UnsignedReadBack | baxter/fix_api/NumPadFmt.hpp:27-51 | reading the padded text back gives the value |
| PadNum.SignedReadBack | baxter/fix_api/NumPadFmt.hpp:65-93 | the same for signed numbers, for paddings other than digits and '-' |
| PadNum.ZeroPaddedNegative | baxter/fix_api/NumPadFmt.hpp:78-86 | a zero-padded negative number reads back as zero |
| PadNum.ZeroPaddedReadBack | baxter/fix_api/NumPadFmt.hpp:78-86 | with the padding 0 a signed number is read back if and only if it is not negative or is not padded at all |
| Handler.FixHandler.constructor | baxter/fix_api/FixHandler.hpp:340-349 | first stamp 1, no number received, 30 seconds, no timer |
| Handler.FixHandler.NextMsgSeqNum | baxter/fix_api/FixHandler.hpp:813-815 | returns the number and moves on to its 64-bit successor |
| Handler.FixHandler.Instruct | baxter/fix_api/FixHandler.hpp:603-635 | a call puts the next consecutive numbers on its messages |
| Handler.FixHandler.SetNextMsgSeqNum | baxter/fix_api/FixHandler.hpp:658-660 | the next number is the given one |
| Handler.FixHandler.ParseFixMsg | baxter/fix_api/FixHandler.hpp:708-765 | one step: a gap is logged exactly when the number does not follow the last one; a logon sets interval and timer |
| Handler.FixHandler.ScheduleHeartbeatTest | baxter/fix_api/FixHandler.hpp:675-679 | the timer is due one interval from now |
| Handler.FixHandler.OnHeartbeatTest | baxter/fix_api/FixHandler.hpp:680-694 | one step: a tick asks for a heartbeat, raises expiry after more than two silent intervals and reschedules; a cancelled wait does nothing |
| Handler.FixHandler.OnDisconnected | baxter/fix_api/FixHandler.hpp:668-671 | no timer is pending |
| Handler.LogonStartsTimer | baxter/fix_api/FixHandler.hpp:752-761 | a logon with a readable number that arrives at time t makes the test due one interval after t; 1 to 599 seconds become the interval, other numbers leave it; no other message touches either |
| Handler.TimerIff | baxter/fix_api/FixHandler.hpp:666-694 | after a run a timer is pending if and only if a logon arrived that no disconnect followed, or one was pending before and there was no disconnect |
| Handler.NoTickUntilLogon | baxter/fix_api/FixHandler.hpp:666-694 | without a timer there is no tick until a logon arrives |
| Handler.NoTickAfterDisconnect | baxter/fix_api/FixHandler.hpp:668-671 | behind a disconnect there is none until then |
| Handler.StampsAfterRenumber | baxter/fix_api/FixHandler.hpp:658-660 | behind setNextMsgSeqNum the stamps go on from the given number |
| Handler.ShortRun | baxter/fix_api/FixHandler.hpp:603-765 | a literal run with a call, a logon, a tick and a disconnect, and the state it ends in |
| Handler.StampsAre | baxter/fix_api/FixHandler.hpp:813-815 | the i-th stamp is start + i modulo 2^64 |
| Handler.CallsCompose | baxter/fix_api/FixHandler.hpp:603-614 | two stretches of messages are stamped like one |
| Handler.StampsDistinct | baxter/fix_api/FixHandler.hpp:813-815 | no number is reused before 2^64 messages |
| Handler.NoGapIff | baxter/fix_api/FixHandler.hpp:712-716 | no gap is logged if and only if each non-zero number is followed by its successor |
| Handler.GapFreeIffContiguous | baxter/fix_api/FixHandler.hpp:712-716 | numbers selected from consecutive stamps, in any order, log no gap if and only if they are one contiguous increasing run |
| Handler.RunNumbers | baxter/fix_api/FixHandler.hpp:603-716 | over any interleaving of calls, messages, ticks and disconnects the stamps are one consecutive run, and the logged gaps are those of the numbers that arrived |
| Handler.RunsGapFreeIff | baxter/fix_api/FixHandler.hpp:603-716 | when one run receives any selection of the messages of another, in any order, it logs no gap if and only if they are one contiguous increasing run |
| Handler.RunKeepsOnTime | baxter/fix_api/FixHandler.hpp:675-694 | in every run a pending deadline is at most one interval ahead |
| Handler.ExpiriesAreLate | baxter/fix_api/FixHandler.hpp:687-690 | in any run whose intervals are at least h no expiry is raised within 2h after any message |
| Handler.EveryTickBeats | baxter/fix_api/FixHandler.hpp:680-683 | over any run a heartbeat is asked for once a tick |
| Handler.SilentDeadline | baxter/fix_api/FixHandler.hpp:680-694 | silent ticks are one interval apart |
| Handler.SilenceExpires | baxter/fix_api/FixHandler.hpp:680-694 | after silence from L the first expiry falls in (L+2h, L+3h] and no earlier tick raises it |
| Handler.HeartbeatDeadline | baxter/fix_api/FixHandler.hpp:675-710 | after every run from a fresh handler that ends with a message and in which no disconnect followed the last logon: a timer is pending, no expiry was raised within 2h of a message, and silence expires in (L+2h, L+3h] |
| SessionQueue.Md2ClientSession.constructor | boost/websocket/server2.cpp:49-87 | a session whose accept is pending |
| SessionQueue.Md2ClientSession.OnAccept | boost/websocket/server2.cpp:113-137 | connected and reading, or nothing |
| SessionQueue.Md2ClientSession.OnRead | boost/websocket/server2.cpp:150-175 | one step of the transition system: the message is written at once or queued |
| SessionQueue.Md2ClientSession.OnMessage | boost/websocket/server2.cpp:177-213 | queue while not connected or sending, otherwise start the write |
| SessionQueue.Md2ClientSession.SendNextWsMessage | boost/websocket/server2.cpp:182-194 | the front of the queue becomes the buffer of the next write |
| SessionQueue.Md2ClientSession.OnWrite | boost/websocket/server2.cpp:219-236 | one step: the next queued message is written, or sending ends; a failure closes |
| SessionQueue.Md2ClientSession.Close | boost/websocket/server2.cpp:55-62 | not connected any more, nothing else changes |
| SessionQueue.StepKeepsInv | boost/websocket/server2.cpp:113-236 | every event keeps order, conservation and the single stable write |
| SessionQueue.EveryRun | boost/websocket/server2.cpp:113-236 | in every run received = written, then the write under way, then the queue; at most one write, its buffer untouched; idle means nothing queued; a connected session is reading |
| SessionQueue.ReadsAll | boost/websocket/server2.cpp:150-175 | a connected session can read any list of messages, one after the other |
| SessionQueue.EchoesAll | boost/websocket/server2.cpp:113-236 | for every list of messages: accept and read them, then as many successful writes; exactly that list was received and written |
| SessionQueue.Failures | boost/websocket/server2.cpp:113-236 | what a failed accept, read or write leaves |
| SessionQueue.NoWriteAfterFailure | boost/websocket/server2.cpp:196-228 | after a failed write no write is started again, whatever happens |
| SessionQueue.DrainSendsAll | boost/websocket/server2.cpp:219-236 | without new reads successful writes send everything received |
| SessionQueue.DrainIsARun | boost/websocket/server2.cpp:219-236 | in exactly as many writes as there are messages outstanding |
| JsonTokeniser.GetNextJsonArrayValue | bitfinex/parser.cpp:36-56 | a call finds exactly the next token; the cursor strictly advances on success |
| JsonTokeniser.AllTokens | bitfinex/parser.cpp:58-70 | the driving loop terminates and reads all tokens |
| JsonTokeniser.TreeTokens | bitfinex/parser.cpp:36-56 | a printed tree inside any text yields its atoms, then what the rest yields |
| JsonTokeniser.ArrayLaw | bitfinex/parser.cpp:36-70 | tokenising a printed nested array yields the flattening of its atoms and nothing else |
| JsonTokeniser.BareAtom | bitfinex/parser.cpp:43-55 | an atom outside every array yields no token |
| JsonTokeniser.SpacesAndNul | bitfinex/parser.cpp:36-56 | spaces in front of a token are skipped and others belong to it; a NUL ends the text where a token is due, but not inside one |
| Uring.BlocksExact | iouring/cat_io_uring.c:276-277 | the block count is right if and only if the size is below 2^31, and never too large |
| Uring.TooMuchMemory | iouring/cat_io_uring.c:276-279 | malloc is asked for more than it can give if and only if the block count is negative |
| Uring.SplitIntoBlocks | iouring/cat_io_uring.c:275-308 | below 2^31 bytes the array is filled with lengths of 1 to 1024 that add up to the size; beyond, nothing is allocated when the count is negative, and otherwise the loop leaves its array; each exactly then |
| Uring.FillBlocks | iouring/cat_io_uring.c:292-308 | the loop fills its array unless it has too few elements |
| Uring.LargeFiles | iouring/cat_io_uring.c:276-279 | what happens at 2^31 and at 2^32 bytes |
| Uring.ReadVJoins | iouring/cat_io_uring.c:318-320 | consecutive buffers of those lengths hold the file's bytes |
| Uring.PrintsTheFile | iouring/cat_io_uring.c:241-245 | the bytes printed for such a file are the file |
| Ring.MaskIsMod | iouring/cat_io_uring.c:236 | and-ing with the ring mask is the remainder modulo the ring size |
| Ring.SlotIsMod | iouring/cat_io_uring.c:236-247 | the slot of the i-th completion is (head + i) modulo the ring size across counter wrap-around |
| Ring.SlotsDistinct | iouring/cat_io_uring.c:236 | pending completions lie in pairwise distinct slots of the ring |
| Ring.CounterAt | iouring/cat_io_uring.c:232-247 | the wrapping counter meets the tail after exactly the pending number of steps |
| Ring.LastLookIs | iouring/cat_io_uring.c:226-248 | every look before the last finds more than was visited, and the last does not |
| Ring.CompletionRing.Output | iouring/cat_io_uring.c:238-245 | one completion prints its buffers and reports its error |
| Ring.CompletionRing.Post | iouring/cat_io_uring.c:228-236 | a posted completion becomes the last pending one and leaves the others alone |
| Ring.CompletionRing.Visit | iouring/cat_io_uring.c:235-247 | the n-th pending completion is looked up and printed |
| Ring.CompletionRing.ReadFromCq | iouring/cat_io_uring.c:218-252 | while the kernel goes on posting: the drain terminates, visits each completion posted before its last look exactly once and in order, stops at the first look that finds nothing, and leaves the ring empty |

## Left out

- NumParse, NumFmt and NumFieldFmt are not part of this model: reading is the value of the leading decimal digits, without a 64-bit limit, and printing is plain or zero-padded decimal text.
- `char` is taken to be signed where the original converts it to an integer.
- Prices and sizes keep their text: the double is not computed, `nan` and `inf` are counted as no number, and overflow is not considered.
- Bodies made from doubles, timestamps, dates and signed numbers: values are given as text or as unsigned numbers.
- Resizing the entries to a very large announced number (running out of memory), and a count that exceeds 32 bits.
- `FixMsg::reset` and reuse of a message: `process` takes a fresh one each time.
- Builder.FixBuilder.Done: no promise where the outcome is `Broken`; where another allocation is made it lies apart from the one in use, and where is a parameter.
- Builder.Build: sizes stay below half of the largest allocation.
- FormatBuffer.DynamicFmtBuf.Put: after a failed ensureSpace the original writes behind the end of its allocation; the model stops.
- FormatBuffer.DynamicFmtBuf.Append: the same.
- FormatBuffer.DynamicFmtBuf.Skip: the same, where the original moves buf behind the end.
- FormatBuffer.DynamicFmtBuf.EnsureSpace: asks for a non-zero capacity, without which it does not return, and for a beginning that is not displaced or an allocation of the arena, without which a wrong pointer is given back.
- FormatBuffer.DynamicFmtBuf.GrowFor: the same.
- `DynamicFmtBuf` takes its memory as fresh arrays; that StackAlloc's blocks are disjoint is proved on its own.
- RcvBuf.FixMsgRcvBuf.Parse: no promise once the effect of a frame is undefined; no size_t overflow when the capacity doubles; `memcpy` within the buffer is an ascending copy.
- ParserFaults.SetFieldFails: a price that is no number counts as undefined, not as throwing, when no entry is current, since the order of the two is open in C++11.
- PadNum.FmtSigned: the most negative value of `int` and wider is excluded, its magnitude overflows.
- Handler.FixHandler.Instruct: the messages' texts and the sending are left out, only their numbers are modelled; `count` is how many are numbered before the call ends or a message cannot be formatted.
- Handler.FixHandler.ParseFixMsg: the dispatch of messages to subscribers is left out, and so are the formatting helpers (`fix_helper`).
- Handler.SilenceExpires: the timer fires exactly at its deadline and the interval does not change during the silence.
- Timers, sockets, TLS, the kernel, `mmap` and the clock are events or parameters.
- `hasMoreValues` of the tokeniser: it takes the final NUL for a value.
- Ring.CompletionRing.ReadFromCq: the kernel posts only into free slots, and each file has at least as many buffers as are printed.
- Uring.PrintsTheFile: assumes a full read; the original prints all buffers after a short or failed read as well, and one readv takes only a limited number of buffers.
- Writing the submission queue entry in `submit_to_sq`, and allocations that fail although their size is possible.
- `boost/websocket/server_ssl.cpp`, `coinbase/fix_api`, `baxter/fix_api/fixMsgParser.hpp` (near copies), `ExchContract`, `FixParsers` and the other demos.
