# Noduino, verified models

A Dafny model of the algorithmic cores of the Noduino firmware, with proofs. `dafny verify dfyconfig.toml` checks
all of it. Each core is modelled the way its C code works: mutable objects and buffers are classes and arrays, their
loops are loops, and every method is proved against a specification on values about which the properties are then
proved.

- **MQTT queue and send loop** (`mqtt_*.dfy`). Byte-stuffed frames in a bounded ring, the retry loop that discards the
  oldest message, and the client as a state machine whose events are atomic. The main results are `RetryExact`,
  `SentInOrder`, `TaskSends`, `QueueIsSent`, `SendsAreSpaced`, `SessionIsRemade` and `ReturnsExactly`.
- **AirKiss receiver** (`airkiss*.dfy`). A password spelled out in packet lengths. `airkiss.dfy` is the receiver on
  values, `airkiss_receiver.dfy` the mutable context that refines it, `airkiss_checksum.dfy` the sender's checksum as a
  division of polynomials; `Delivery`, `ChecksumIs`, `SessionSound`, `ListenConsistent` and `OrderIrrelevant` are the
  main results.
- **cJSON** (`cjson_*.dfy`). `cjson_text.dfy` says what is printed and what is parsed, `cjson_grammar.dfy` what JSON
  texts there are and what they stand for; `cjson_heap.dfy` is the memory with its items and strings, in which a tree
  is held by a ghost `Node`. On it stand the parser, both printers, the list operations, duplication and deletion, each
  with what is allocated and freed. `TextParsed`, `RoundTrip`, `ParseWithOpts`, `PrintTree`, `PrintBuffered`,
  `PrettyLaid`, `PrintParsePrint`, `PrintAndMinify`, `MinifyKeeps`, `MinifyExact` and `Duplicate` are the main results.
- **Configuration swap of boot 1.3** (`boot_*.dfy`). Flash operations that can be cut off at any bit. `SwapIsAtomic`,
  `EveryHistory`, `StartSurvives`.
- **rBoot** (`rboot*.dfy`). The checker and the loader that walk the same image format, and the choice of a slot.
  `BuiltIsSound`, `CheckAndLoad`, `NoneIsGood`, `ChosenIsFirst`, `SecondBoot`, `AlignedRepeats`,
  `StuckForever`.
- **HTTP client** (`http_*.dfy`, with `numerals.dfy`). The saturating number parser, the chunk decoder and the response
  buffer. `NumeralRead`, `DecodeEncoded`, `DiscardIsFinal`.
- **UDP writer and UART rings** (`udp_*.dfy`, `uart_*.dfy`). A buffer chain and two rings refine texts and FIFOs.
  `AppendsThenSend`, `Port`.

## What the proofs found

Some promises hold only under a condition. Each of these comes with the exact condition, as an if-and-only-if, and
with an input that fails it.

- Discarding old messages does not add up room for a large one, because each failed put fills the room that was freed
  with its own torn frame (`RetryExact`, `RetryLosesEverything`).
- A second AirKiss session without `airkiss_init` between starts with groups of the first; a session is sound exactly
  when none is left over (`SessionSound`, `NextSessionIsStale`).
- A UDP datagram can be appended up to 65408 bytes, not up to the 16-bit limit: above that the chain needs 512 buffers,
  their 16-bit totals no longer tell where a buffer begins, and the copy leaves the buffer (`Append`, `CopyAll`).
- An HTTP packet that is too large for the buffer discards the response for good, except when it is the first one
  (`DiscardIsFinal`).
- Minifying keeps the meaning of a text that parses, but it can also make a text parse that did not: exactly by
  removing a comment, or layout from inside a word or a number (`MinifyExact`, `MinifyAccepts`).
- The MQTT receive handler returns exactly if no packet it goes through reports a length of zero, which three length
  bytes can bring about (`ReturnsExactly`, `ZeroLength`).
- rBoot's second boot repeats the first exactly if writing back the chosen slot did the chosen image no harm; an image
  that lies over the configuration can be one that boots only once (`SecondBoot`, `BootsOnce`). Such an image breaks
  the rule that slots are at multiples of 0x1000 (`bootloader/rboot/rboot.h:44`), which the code does not check; for a
  slot that keeps it the boot is always repeated, unless the first section of a two-part image wraps round to a header
  before the slot (`AlignedRepeats`). Where the changed byte
  is a kind, a count, an offset or a length of the image, the condition is the check of the image with that byte
  changed; everywhere else it is whether the byte is one of the image's.
- A first block for the UART's transmit ring is taken over unharmed exactly if it has at most 256 characters
  (`TxEnqueue`).

Others are plain facts about what the code does.

- Power failing while rBoot writes its configuration can leave a flash that no boot starts from or repairs, whatever
  the level of the pin; this can happen in every boot that writes (`StuckForever`). The two slots of boot 1.3 do not
  have that problem (`SwapIsAtomic`).
- The receive ring of the UART treats equal positions as empty, which is right because it never fills up
  (`FullWouldOverrun`).

## Conventions

- In the cJSON model `Undefined`, and elsewhere `Lost`, `Overrun` or a result `ok` that is false, stand for inputs on
  which the C code reads behind the terminator or writes behind its buffer. `OutsideOk` says that the escapes in the
  literals of a text are complete, which is enough to keep the parser inside the text (`ParseDefined`).
- `Printable` trees hold 32-bit integers and NUL-free strings, and `Complete` nodes have their keys and strings.
- A method that takes a `ghost` node takes no more than the C function does: the node only names the tree that is
  there.
- `mqtt.c` uses client states and fields that `include/mqtt/mqtt.h` does not declare; the model follows `mqtt.c`.

## Model

| member | source | states |
|---|---|---|
| `MqttRingBuf.RingBuf.Init` | lib/mqtt/ringbuf.c:16-25 | A missing buffer or one of fewer than two bytes is refused and the ring is untouched; any other makes an empty ring on that buffer |
| `MqttRingBuf.RingBuf.Put` | lib/mqtt/ringbuf.c:32-46 | The ring, wherever its pointers have wrapped to, is a bounded FIFO: a byte goes behind the contents when there is room, and a full ring is unchanged and reports it |
| `MqttRingBuf.RingBuf.Get` | lib/mqtt/ringbuf.c:53-67 | The oldest byte leaves the front of the FIFO; an empty ring reports it and stays empty |
| `MqttProto.StuffHasNoEnd` | lib/mqtt/proto.c:106-128 | No message, whatever its bytes, has the frame terminator inside its stuffed form |
| `MqttProto.TornHasNoEnd` | lib/mqtt/proto.c:106-128 | A frame cut off after any number of bytes contains no terminator, so nothing can end it but a later frame's |
| `MqttProto.FeedStuffed` | lib/mqtt/proto.c:13-47 | Unstuffing undoes stuffing on every message, cut to the size of the output buffer |
| `MqttProto.FrameDecodes` | lib/mqtt/proto.c:13-69 | A whole frame decodes to exactly its message whatever torn frames stand in front of it |
| `MqttProto.MessagesAfterPut` | lib/mqtt/proto.c:56-69 | Putting any prefix of a frame changes the decodable messages only when it is the whole frame, and then by that message at the end: truncated frames are never decoded |
| `MqttProto.JunkIsHarmless` | lib/mqtt/proto.c:3-11 | The begin flag that the parser's initialisation leaves unset cannot influence what is decoded from a ring of frames |
| `MqttProto.AddRb` | lib/mqtt/proto.c:106-128 | The bytes that go into the ring are the longest part of the frame that fits; the result is -1 when the frame was torn and otherwise its length narrowed to a signed 16-bit number, which for the one length 65535 is -1 as well |
| `MqttProto.ProtoParser.ParseByte` | lib/mqtt/proto.c:13-47 | One byte moves the decoder on as the abstract decoder moves, and only the terminator reports a message |
| `MqttProto.ParseRb` | lib/mqtt/proto.c:56-69 | The oldest message is delivered byte for byte with its length and exactly the bytes up to its terminator are used up; a ring without one is emptied and reported |
| `MqttQueue.Queue.Puts` | lib/mqtt/queue.c:42-45 | What a put leaves in the ring, whole frame or torn, and that success is reported exactly when the whole frame fitted |
| `MqttQueue.Queue.Gets` | lib/mqtt/queue.c:46-50 | A get returns the oldest decodable message or empties the ring and fails |
| `MqttQueue.PutRetry` | lib/mqtt/mqtt.c:509-517 | The loop that discards the oldest message until a put succeeds ends from every ring state, and ends in the state that the recursive description of it gives |
| `MqttQueue.RetryRound` | lib/mqtt/mqtt.c:509-517 | Each round uses up one terminator and loses exactly the oldest message; the torn frame takes all the room that was freed |
| `MqttQueue.RetryExact` | lib/mqtt/mqtt.c:509-517 | From every ring: the put succeeds if and only if the frame fits the free bytes or the slot of one queued message; on success the messages are a suffix of the earlier ones and then the new one, on failure the ring is empty |
| `MqttQueue.RetryLosesEverything` | lib/mqtt/mqtt.c:509-517 | A counterexample to dropping only as much as is needed: for any two queued messages of 1022 bytes and a new one of 1023, none with a byte to be stuffed, the frame fits the empty ring but is refused, and all three messages are lost |
| `MqttClient.StepMoves` | lib/mqtt/mqtt.c:198-640 | Every event keeps the ring made of frames and torn frames, and the queue first in, first out: only a put that needs room discards, the oldest messages up to the first whose slot is large enough; only the task sends; and nothing is queued but what was offered and admitted |
| `MqttClient.SentInOrder` | lib/mqtt/mqtt.c:576-640 | Over every interleaving of events, everything that was queued was sent, was discarded by a put that needed the room, or is still queued: each message once, byte for byte and in the order of the puts, and what was sent is exactly what left and was not discarded |
| `MqttClient.TaskSends` | lib/mqtt/mqtt.c:614-634 | With a connection and no send awaited the task sends exactly the oldest message, whatever its type, takes it off the queue and starts a wait of five ticks; in every other state it sends nothing and the queue stays |
| `MqttClient.QueueIsSent` | lib/mqtt/mqtt.c:335-346 | Each round of a task and a sent callback sends one more of the queued messages, in order, until all are sent |
| `MqttClient.AnsweredExactly` | lib/mqtt/mqtt.c:198-327 | A received packet is answered exactly when there is a session, its type and quality of service ask for an answer (sections 3.3 to 3.12 of MQTT 3.1.1), and the answer fits the ring |
| `MqttClient.SessionOpens` | lib/mqtt/mqtt.c:213-240 | Over any received data, a session opens with the first packet of type 2 behind the connection, and with no other |
| `MqttClient.PingIsDue` | lib/mqtt/mqtt.c:348-400 | In a session without other events no ping goes out in the first keep-alive ticks, and the next tick sends one or, when that fails, asks for a new connection |
| `MqttClient.ReconnectIsDue` | lib/mqtt/mqtt.c:348-400 | A lost connection is asked for again in the sixth tick, and not before |
| `MqttClient.SessionIsRemade` | lib/mqtt/mqtt.c:213-640 | Over a lost connection, six ticks, a task, the connection and its answer, the session is there again and everything that was queued is still queued |
| `MqttClient.Endings` | lib/mqtt/mqtt.c:403-422 | A client that asked for it ends disconnected or deleted, and any other asks for a new connection |
| `MqttClient.SendsAreSpaced` | lib/mqtt/mqtt.c:335-400 | After the task sent a message no run sends another before a sent callback or MQTT_SEND_TIMOUT timer ticks |
| `MqttClient.Client.MqttPublish` | lib/mqtt/mqtt.c:496-518 | The publish method's effect on all fields, queue and histories is the publish event's, and it reports exactly whether the message was queued |
| `MqttClient.Client.MqttSubscribe` | lib/mqtt/mqtt.c:528-546 | Likewise for a subscription |
| `MqttClient.Client.MqttPing` | lib/mqtt/mqtt.c:554-573 | Likewise for a ping |
| `MqttClient.Client.ReadPackets` | lib/mqtt/mqtt.c:198-327 | Going through the packets of the received data, with replies queued on the way, is the receive event, and says whether it comes to a packet it jumps back to for ever |
| `MqttClient.Client.Recv` | lib/mqtt/mqtt.c:198-327 | The receive handler as an event, and exactly whether it returns |
| `MqttReceive.ReturnsExactly` | lib/mqtt/mqtt.c:198-327 | Pass by pass as the C code makes them, the handler returns if and only if no packet it goes through reports a length of zero, and then with the state that the receive event gives |
| `MqttClient.Client.SentCb` | lib/mqtt/mqtt.c:335-346 | The sent callback ends the wait after a send, and changes nothing of the queue |
| `MqttClient.Client.DisconnectCb` | lib/mqtt/mqtt.c:403-422 | The disconnect callback's three ways out are the event's |
| `MqttClient.Client.DnsFoundCb` | lib/mqtt/mqtt.c:59-97 | A missing address asks for another try, the first address connects, another changes nothing |
| `MqttClient.Client.MqttTimer` | lib/mqtt/mqtt.c:348-400 | One tick of the keep-alive, send-timeout and reconnect counters, as the timer event says |
| `MqttClient.Client.MqttTask` | lib/mqtt/mqtt.c:576-640 | The task does exactly what the task event says, of which TaskSends speaks |
| `MqttReceive.GetTotalLength` | lib/mqtt/mqtt_msg.c:135-152 | The loop over the length bytes computes the sum the format defines, for any number of continuation bytes |
| `MqttReceive.TotalLength` | lib/mqtt/mqtt_msg.c:135-152 | For every length, encoded as section 2.2.3 of MQTT 3.1.1 says, the total is the type byte, the length bytes and the length |
| `MqttReceive.ZeroLength` | lib/mqtt/mqtt_msg.c:135-152 | A publish packet with length bytes FC FF 03 has length zero in 16 bits, and the handler that is given it in the data state never returns, after any number of passes |
| `AirKiss.Crc1Injective` | lib/airkiss/airkiss.c:82-102 | The checksum of one byte determines the byte, so a wrong length byte never passes its check |
| `AirKiss.CrcRoundDivides` | lib/airkiss/airkiss.c:82-102 | One round of the checksum is division by the reflected polynomial x^8 + x^5 + x^4 + 1 |
| `AirKissChecksum.ChecksumIs` | lib/airkiss/airkiss.c:82-113 | The checksum of any bytes is the remainder of the long division of their bits, the lowest of each byte first, by x^8 + x^5 + x^4 + 1 |
| `AirKissChecksum.IndexMatters` | lib/airkiss/airkiss.c:313-345 | Two groups with the same data and different indices have different seven-bit checksums, so a group with a damaged index is refused |
| `AirKissReceiver.Context.MoveOnes` | lib/airkiss/airkiss.c:171-180 | The sliding window moves by one place and nothing outside it changes |
| `AirKissReceiver.SetBit` | lib/airkiss/airkiss.c:182-195 | Adding an unset bit to the map of received groups sets that bit and no other |
| `AirKissReceiver.Context.AddSeqData` | lib/airkiss/airkiss.c:182-195 | A needed group is stored at its place and marked; any other, or one that is marked already, changes nothing |
| `AirKissReceiver.Context.RecvDiscover` | lib/airkiss/airkiss.c:218-251 | Four rising lengths lock on, as the abstract receiver does |
| `AirKissReceiver.Context.ProcessPrefixCode` | lib/airkiss/airkiss.c:275-311 | The prefix stage over the mutable context is the abstract receiver's, with the needed groups and their bit mask set |
| `AirKissReceiver.Context.ProcessSequence` | lib/airkiss/airkiss.c:313-371 | The sequence stage over the mutable context is the abstract receiver's, whose checksum over index and data is the remainder of ChecksumIs |
| `AirKissReceiver.Context.Recv` | lib/airkiss/airkiss.c:374-407 | The whole receiver with its window array, bit map and data buffer refines the abstract state machine, and reports each stage when it is reached |
| `AirKissDelivery.TaggedWindows` | lib/airkiss/airkiss.c:254-311 | Of the windows a tagged group slides through, exactly the fourth is recognised, and its nibbles are the bytes sent |
| `AirKissDelivery.Unaligned` | lib/airkiss/airkiss.c:313-371 | A window that straddles two groups is never taken for a group, for all groups, data and offsets |
| `AirKissDelivery.GroupOn` | lib/airkiss/airkiss.c:313-371 | Six lengths of a group, fed to a waiting receiver, are taken in once, at the sixth |
| `AirKissDelivery.GroupStep` | lib/airkiss/airkiss.c:313-371 | After each group either the message is delivered or the receiver holds exactly the groups sent so far |
| `AirKissDelivery.Delivery` | lib/airkiss/airkiss.c:218-371 | For every password of at most 32 bytes, random byte, base length and order of groups with repeats, a receiver without left-over groups fed the loss-free lengths of a sender, whose checksums are remainders of polynomial division, completes with exactly that password and random byte |
| `AirKissDelivery.DeliveryInOrder` | lib/airkiss/airkiss.c:218-371 | The plain case of it: every group once, in order |
| `AirKissDelivery.OthersIgnored` | lib/airkiss/airkiss.c:123-155 | Frames of other senders, wherever they come while the receiver is locked on, change nothing |
| `AirKissDelivery.StaleGroups` | lib/airkiss/airkiss.c:182-211 | A counterexample when groups are left over from an earlier message: for every such receiver a message that goes wrong |
| `AirKissDelivery.SessionSound` | lib/airkiss/airkiss.c:182-211 | A session delivers whatever is sent if and only if no group is left over at its start |
| `AirKissRuns.ListenConsistent` | lib/airkiss/airkiss.c:302-363 | In every run the received set only grows and stays in its target, each stored group is the first valid one with its index, and the message is complete exactly when every needed group has arrived |
| `AirKissRuns.ListenFromInit` | lib/airkiss/airkiss.c:197-211 | Initialisation establishes what every run keeps |
| `AirKissRuns.OrderIrrelevant` | lib/airkiss/airkiss.c:302-363 | Two completed runs with the same first valid groups end with the same password and random byte, whatever the order, repeats and noise |
| `AirKissRuns.NextSessionIsStale` | lib/airkiss/airkiss.c:374-407 | The end of a session never clears its groups: the next frame starts a session with some of them left over |
| `CJsonStrings.Utf8Decodes` | lib/cjson/cJSON.c:399-447 | What a \u escape writes decodes, by the definition of UTF-8 (section 3 of RFC 3629), to the code point |
| `CJsonStrings.Utf8Unique` | lib/cjson/cJSON.c:399-447 | Every well-formed UTF-8 sequence is the one the transcoder writes for its code point |
| `CJsonStrings.PairIsUtf16` | lib/cjson/cJSON.c:399-447 | The two halves of a surrogate pair are put together as UTF-16 defines, into a supplementary code point |
| `CJsonStrings.HexIs` | lib/cjson/cJSON.c:312-355 | Four digits of 0-9, a-f and A-F, in any mixture of cases, are read as their number in base 16 |
| `CJsonStrings.HexOnly` | lib/cjson/cJSON.c:312-355 | Nothing else is taken for four hexadecimal digits |
| `CJsonStrings.ShortIs` | lib/cjson/cJSON.c:383-398 | The short escapes are the eight of section 7 of RFC 8259, and any other character stands for itself |
| `CJsonStrings.LiteralMeaning` | lib/cjson/cJSON.c:356-459 | Every well-formed literal (section 7 of RFC 8259) parses to what its characters, escapes and surrogate pairs stand for by the standard's alphabet of hexadecimal digits in either case and its table of short escapes, within the length found by the first pass |
| `CJsonStrings.LiteralDefined` | lib/cjson/cJSON.c:356-459 | A literal with complete escapes is read within the text and never written past the buffer that the first pass sized |
| `CJsonStrings.ValueDefined` | lib/cjson/cJSON.c:646-958 | On every input whose literals have complete escapes the parser accepts or reports an error, and never leaves the text or a buffer |
| `CJsonStrings.ParseDefined` | lib/cjson/cJSON.c:587-615 | Complete escapes in all literals are enough for a whole parse not to leave the text |
| `CJsonRoundTrip.ReadDecimal` | lib/cjson/cJSON.c:173-208 | Reading the printed digits of a number gives the number back |
| `CJsonRoundTrip.UnescapeEscaped` | lib/cjson/cJSON.c:462-555 | Escaping and unescaping are inverse on every NUL-free string, and the first pass reserves enough |
| `CJsonRoundTrip.ParsePrinted` | lib/cjson/cJSON.c:646-1136 | Parsing a printed value, formatted or not, at any depth and before any text that does not prolong it, consumes exactly that value and yields it |
| `CJsonRoundTrip.RoundTrip` | lib/cjson/cJSON.c:587-632 | For every printable tree, parsing what is printed, formatted or not, yields an equal tree and consumes all of it |
| `CJsonGrammar.NumeralRead` | lib/cjson/cJSON.c:173-208 | Every number of section 6 of RFC 8259, with its sign, fraction and exponent, is read as the number its digits stand for by their places |
| `CJsonGrammar.DocRead` | lib/cjson/cJSON.c:646-958 | Every value of the grammar of RFC 8259, before any text that does not prolong it, is read as the value it stands for, and nothing behind it is read |
| `CJsonGrammar.TextParsed` | lib/cjson/cJSON.c:587-615 | Every JSON text of RFC 8259, with any spaces where they may stand, any spelling of its strings and any form of its numbers, is accepted as a whole and parsed to the value it stands for |
| `CJsonLayout.PrettyLaid` | lib/cjson/cJSON.c:790-1136 | The formatted text of every printable tree: a line for each member and each closing brace, a tab for each open bracket at its front, a tab behind a colon, a space behind a comma in an array, and no blank anywhere else |
| `CJsonReader.ReadNumber` | lib/cjson/cJSON.c:173-208 | The loops over sign, digits, fraction and exponent find the exact mantissa and power of ten and the end of the number |
| `CJsonReader.Measure` | lib/cjson/cJSON.c:367-371 | The first pass over a literal counts the estimate that the abstract parser allocates by |
| `CJsonReader.PutUtf8` | lib/cjson/cJSON.c:399-447 | The bytes of a code point, written from the last to the first, are its UTF-8 form, and the bytes in front of them are kept |
| `CJsonReader.PutEscape` | lib/cjson/cJSON.c:312-447 | A \u escape, with its surrogate pair or a lone half, writes what the abstract transcoder gives and passes exactly the escape |
| `CJsonReader.Decode` | lib/cjson/cJSON.c:373-455 | The second pass writes into the allocated buffer, and never past it, the characters the literal stands for |
| `CJsonReader.UnescapedNulFree` | lib/cjson/cJSON.c:356-459 | A parsed string never has a terminator inside |
| `CJsonReader.ReadString` | lib/cjson/cJSON.c:356-459 | A literal becomes a new C string of what it means; on failure nothing stays allocated |
| `CJsonParser.ParseStringAt` | lib/cjson/cJSON.c:356-459 | The same into an item of a tree |
| `CJsonParser.ParseNumberAt` | lib/cjson/cJSON.c:173-208 | A number parsed into an item |
| `CJsonParser.ParseValueAt` | lib/cjson/cJSON.c:646-680 | A value parsed into an item: the tree that is there afterwards stands for the abstract parser's value and has the texts of all its strings in memory, or what is there on failure is still one tree that owns all that was allocated |
| `CJsonParser.ParseArrayAt` | lib/cjson/cJSON.c:750-787 | The same for arrays, whose elements are linked in both directions, with their texts in memory |
| `CJsonParser.ParseObjectAt` | lib/cjson/cJSON.c:903-958 | The same for objects, whose keys move from the value field to the name field: every member has its name in memory |
| `CJsonParser.ParseWithOpts` | lib/cjson/cJSON.c:587-615 | On every text the parse does not run out of, whatever stands behind the value: a successful parse owns exactly the nodes and strings of its tree, which is the parsed value, with every key and every string in memory; a failing one frees everything it allocated, each object once, and leaves the memory as before |
| `CJsonReload.ParsePrintedText` | lib/cjson/cJSON.c:587-632 | Parsing the text that a buffer holds after printing gives a tree of new objects that stands for the printed value and can be printed again |
| `CJsonReload.PrintParsePrint` | lib/cjson/cJSON.c:587-632 | For every printable tree in memory, formatted or not: printing it, parsing that text and printing the result gives the same text twice and an equal tree that shares nothing with the first, and nothing else stays allocated |
| `CJsonReload.ThereAndBack` | lib/cjson/cJSON.c:156-170 | When the first text and the second tree are then freed, the memory holds what it held before and the second text |
| `CJsonHeap.Delete` | lib/cjson/cJSON.c:156-170 | A list of siblings and all below it goes back to the allocator: each object once, no object used after it was freed, and nothing else freed |
| `CJsonLists.GetArraySize` | lib/cjson/cJSON.c:1139-1146 | The length of the list |
| `CJsonLists.GetArrayItem` | lib/cjson/cJSON.c:1148-1154 | The item at a position; the first one for a negative position, null past the end |
| `CJsonLists.SuffixObject` | lib/cjson/cJSON.c:1165-1169 | Linking behind the last item keeps next and prev inverse |
| `CJsonLists.AddItemToArray` | lib/cjson/cJSON.c:1186-1197 | Refines appending to a sequence, with next and prev inverse and the chain without cycles; a null item changes nothing |
| `CJsonLists.InsertItemInArray` | lib/cjson/cJSON.c:1277-1293 | Refines inserting at a position, whatever the links of the new item were, or appending past the end |
| `CJsonLists.DetachItemFromArray` | lib/cjson/cJSON.c:1235-1250 | Refines removing at a position; the detached tree stays whole, shares nothing with the rest and has no links left |
| `CJsonLists.DeleteItemFromArray` | lib/cjson/cJSON.c:1252-1255 | Removal at a position frees exactly the objects of that tree |
| `CJsonLists.ReplaceItemInArray` | lib/cjson/cJSON.c:1296-1313 | Refines updating at a position and frees exactly the old tree; past the end nothing changes |
| `CJsonDuplicate.Duplicate` | lib/cjson/cJSON.c:1463-1512 | The copy stands for the same value, has its keys and strings in memory when the original has, consists of new objects only, and is all that was allocated; the original is as it was |
| `CJsonPow2.Pow2gt` | lib/cjson/cJSON.c:210-219 | For sizes from 1 to 2^30 the smeared bits plus one are the least power of two that is not smaller |
| `CJsonPow2.SmearAll` | lib/cjson/cJSON.c:210-219 | The five shifts and ors set every binary digit below the first of any number of at most 30 digits |
| `CJsonBuffer.Ensure` | lib/cjson/cJSON.c:227-251 | There is room for what was asked behind the offset, the text so far is kept when the buffer moves, and the old buffer is freed |
| `CJsonBuffer.Update` | lib/cjson/cJSON.c:253-259 | The offset moves to the end of what was written |
| `CJsonBuffer.EscapedLength` | lib/cjson/cJSON.c:498-507 | The length that is counted is exactly that of the escaped text |
| `CJsonBuffer.PutEscapes` | lib/cjson/cJSON.c:508-554 | What is written for a string with something to escape is its quoted form and a terminator |
| `CJsonBuffer.PrintString` | lib/cjson/cJSON.c:462-555 | A string printed into the buffer, through any enlargement, adds its quoted form behind the text so far |
| `CJsonPrint.PrintNulFree` | lib/cjson/cJSON.c:682-747 | No printed text has a terminator inside, so it is a C string as a whole |
| `CJsonPrint.PrintNumber` | lib/cjson/cJSON.c:262-310 | An integer printed into the buffer adds its decimal form |
| `CJsonPrint.PrintArray` | lib/cjson/cJSON.c:790-845 | An array printed into the growing buffer adds its unformatted text, and the tree is unharmed |
| `CJsonPrint.PrintObject` | lib/cjson/cJSON.c:961-1050 | The same for an object |
| `CJsonPrint.PrintBuffered` | lib/cjson/cJSON.c:634-643 | From every positive initial size and through any number of enlargements, buffered printing gives the same text as unformatted allocating printing, in one buffer that is all that stays allocated |
| `CJsonPrintAlloc.PrintStringAlloc` | lib/cjson/cJSON.c:462-555 | A string printed into a buffer of its own, exactly as large as was counted |
| `CJsonPrintAlloc.PrintNumberAlloc` | lib/cjson/cJSON.c:262-310 | An integer printed within the 21 bytes (two for zero) that are allocated |
| `CJsonPrintAlloc.JoinFits` | lib/cjson/cJSON.c:846-900 | The size added up for an array is enough from every element on |
| `CJsonPrintAlloc.LinesFit` | lib/cjson/cJSON.c:1051-1136 | The size added up for an object is enough from every member on, tabs and line ends included |
| `CJsonPrintAlloc.PrintArrayAlloc` | lib/cjson/cJSON.c:790-900 | An array put together from the texts of its elements, formatted or not: within its buffer, all intermediate strings and the table freed once each, only the result stays |
| `CJsonPrintAlloc.PrintObjectAlloc` | lib/cjson/cJSON.c:961-1136 | The same for an object with its names and values, indentation and the empty case |
| `CJsonPrintAlloc.PrintValueAlloc` | lib/cjson/cJSON.c:682-747 | The allocating printer, formatted or not, at any depth, gives the specified text as a new string and leaves nothing else in memory |
| `CJsonPrintAlloc.PrintTree` | lib/cjson/cJSON.c:624-632 | What cJSON_Print and cJSON_PrintUnformatted leave in memory parses to exactly the tree that was printed |
| `CJsonMinify.MinifyPrinted` | lib/cjson/cJSON.c:1514-1547 | The formatted text of a value minifies to its unformatted text, in front of anything |
| `CJsonMinify.PrintDepth` | lib/cjson/cJSON.c:624-632 | Unformatted text does not depend on the depth |
| `CJsonMinify.MinifyPretty` | lib/cjson/cJSON.c:1514-1547 | For every printable tree, minifying the formatted output gives exactly the unformatted output |
| `CJsonMinifyPieces.LineGone` | lib/cjson/cJSON.c:1526-1528 | A comment up to the end of a line is gone and what follows is minified, whatever is in it |
| `CJsonMinifyPieces.BlockGone` | lib/cjson/cJSON.c:1529-1533 | A block comment is gone up to its first star and slash |
| `CJsonMinifyPieces.MinifyKeeps` | lib/cjson/cJSON.c:1514-1546 | For every text, minifying leaves s if and only if the text can be read as a row of marks, literals, layout and comments of which the marks and literals in a row are s |
| `CJsonMinifyInPlace.MinifyInPlace` | lib/cjson/cJSON.c:1514-1547 | The minifier stays in the text if and only if the text is a row of marks, closed literals, layout and closed comments, and then leaves the marks and literals in a row, a terminator, and the buffer behind it as it was |
| `CJsonPrintMinify.PrintAndMinify` | lib/cjson/cJSON.c:1514-1547 | Running the minifier on the buffer that the formatted printer left gives the unformatted text, in the same buffer, and leaves nothing else |
| `CJsonMinifyMeaning.UnescapeLocal` | lib/cjson/cJSON.c:356-459 | What a closed literal stands for does not depend on what follows it |
| `CJsonMinifyMeaning.NumberLocal` | lib/cjson/cJSON.c:173-208 | What a number's text stands for does not depend on what follows it, unless that prolongs it |
| `CJsonMinifyParse.MinifyKeepsMeaning` | lib/cjson/cJSON.c:1514-1547 | Minifying any text that parses whole, has complete escapes and closed comments and literals, does not change the parsed value |
| `CJsonMinifyCut.MinifyExact` | lib/cjson/cJSON.c:1514-1547 | Such a text parses whole if and only if its minified text does and minifying removes no comment and no layout from inside a word or a number; the value is then the same |
| `CJsonMinifyParse.MinifyAccepts` | lib/cjson/cJSON.c:1514-1547 | An input on which the two differ: a text that does not parse minifies to one that does |
| `BootFlash.EraseWrite` | bootloader/boot1.3/bootloader2.c:105-121 | Erasing a sector and writing from its start leaves the data and then erased cells, and every other sector as it was |
| `BootFlash.TornEnds` | bootloader/boot1.3/bootloader2.c:72-123 | Nothing done and all done are among the ways an operation can be cut off |
| `BootFlash.RunIsCrash` | bootloader/boot1.3/bootloader2.c:72-123 | Every state between two flash operations is one a power failure can leave |
| `BootSwap.SwapCompletes` | bootloader/boot1.3/bootloader2.c:72-123 | A completed swap: the new configuration is the one that is read, the flag is turned, the rest of the slot's sector and everything outside the slot's and the flag's sectors is as it was |
| `BootSwap.SwapIsAtomic` | bootloader/boot1.3/bootloader2.c:72-123 | Power may fail at any point, inside an erase or a write at any bit: what is read next is the whole old configuration or the whole new one |
| `BootSwap.EveryHistory` | bootloader/boot1.3/bootloader2.c:72-123 | After every history of completed and interrupted swaps a whole configuration is read: that of the last completed one or of one interrupted since |
| `BootLoader.SwapBoot` | bootloader/boot1.3/bootloader2.c:72-123 | The swap over sector buffers issues exactly the four flash operations the theorems are about |
| `BootLoader.Start` | bootloader/boot1.3/bootloader2.c:189-282 | The start of the boot loader reads the slot the flag names, replaces an unacceptable configuration by the default, and issues exactly the specified flash operations |
| `BootLoader.WhereFound` | bootloader/boot1.3/bootloader2.c:231-265 | The configuration area is the last four sectors of the flash that the header announces; the configuration is read from the second when the first byte of the last is zero, and from the third otherwise |
| `BootLoader.AcceptedMeans` | bootloader/boot1.3/bootloader2.c:267 | A configuration is accepted exactly when the five low bits of its second byte are 3 and the two low bits of its first byte name an image |
| `BootLoader.StartSettles` | bootloader/boot1.3/bootloader2.c:254-282 | After a start, the next one boots from the same configuration and writes nothing |
| `BootLoader.StartSurvives` | bootloader/boot1.3/bootloader2.c:254-282 | Whatever a power failure during a start leaves behind, the next start boots from the same configuration |
| `BootLoader.StartAfterSwap` | bootloader/boot1.3/bootloader2.c:72-123 | A swap cut off anywhere and then a start boots from the old configuration, the new one, or the default when what it finds is unacceptable |
| `RBootImage.CheckSections` | bootloader/rboot/rboot.c:67-109 | Reading block by block with any buffer of at least 16 bytes finds the same sections, end and checksum as the image format defines |
| `RBootImage.CheckImage` | bootloader/rboot/rboot.c:15-123 | The checker's answer does not depend on the block size: it is the address of the image exactly when header, sections and checksum are sound |
| `RBootImage.BuiltIsSound` | bootloader/rboot/rboot.c:15-123 | Every image that is built from sections, entry point and padding, written anywhere it fits, is accepted, and walking it gives those sections back |
| `RBootImage.BuiltInTwoIsSound` | bootloader/rboot/rboot.c:15-123 | An image in two parts that is built and written anywhere it fits is accepted at its second part, whose sections are found |
| `RBootImage.ChecksumIsParity` | bootloader/rboot/rboot.c:67-109 | Each bit of the checksum tells whether it is set in an odd number of the bytes |
| `RBoot.SizeReckoned` | bootloader/rboot/rboot.c:187-218 | The size that is reckoned with is the announced one, up to eight megabits |
| `RBoot.EverySlot` | bootloader/rboot/rboot.c:279-317 | The order of the tries visits every slot exactly once |
| `RBoot.NoneIsGood` | bootloader/rboot/rboot.c:279-317 | find_image answers zero if and only if every configured slot is bad |
| `RBoot.ChosenIsFirst` | bootloader/rboot/rboot.c:279-317 | Otherwise the chosen slot is good and every slot tried before it, downwards from the current one and round, is bad |
| `RBootFind.Settle` | bootloader/rboot/rboot.c:255-277 | A missing configuration is made up from the flash size and written; an existing one is left alone |
| `RBootFind.FreshSlots` | bootloader/rboot/rboot.c:255-277 | A configuration that is made up has no pin and two slots, one in each half of the flash, both at the start of a sector and behind boot loader and configuration |
| `RBootFind.SlotStep` | bootloader/rboot/rboot.c:306-314 | Each try is one slot below the one before it, and the last slot after slot 0, until the first comes round |
| `RBootFind.TryRoms` | bootloader/rboot/rboot.c:279-317 | The fallback loop ends, checks the slots in the order of the tries, none twice, and stops at the first good one or after all |
| `RBootFind.ChooseRom` | bootloader/rboot/rboot.c:279-333 | The boot address, and that the configuration is rewritten exactly when the chosen slot is not the configured one |
| `RBootFind.FindImage` | bootloader/rboot/rboot.c:166-335 | The whole of find_image: the answer, the final flash and the exact flash operations |
| `RBootAgain.CheckChanged` | bootloader/rboot/rboot.c:15-123 | Changing the one byte that holds the current slot turns a good image bad exactly when the byte is among the bytes of its sections, unless it says where the image's parts are |
| `RBootAgain.Rewritten` | bootloader/rboot/rboot.c:319-327 | Writing the configuration back with another current slot changes that one byte of the flash |
| `RBootAgain.SecondBoot` | bootloader/rboot/rboot.c:279-333 | After a boot that found a good image, the next boot picks the same slot, gives the same answer and writes nothing if and only if the slot was not written back, or writing it back did no harm to the image |
| `RBootAgain.Elsewhere` | bootloader/rboot/rboot.c:279-333 | An image wholly behind or wholly before that byte is never harmed |
| `RBootAgain.AlignedRepeats` | bootloader/rboot/rboot.c:279-333 | When the chosen slot is at the start of a sector, as the program asks for, and its plain header is not before it, the boot is always repeated |
| `RBootAgain.BootsOnce` | bootloader/rboot/rboot.c:279-333 | A flash whose only image, at an address that is not the start of a sector, boots once: writing back its slot spoils its checksum, and the next boot finds nothing |
| `RBootCrash.CrashedConfig` | bootloader/rboot/rboot.c:319-327 | Whatever a power failure during the rewrite leaves, nothing outside the sector has changed, and the sector has all the bits of the old configuration or all those of the new one |
| `RBootCrash.StuckForever` | bootloader/rboot/rboot.c:255-333 | For every flash and either level of the pin, power can fail during a boot so that this boot and every later one, whatever the pin, finds no image and repairs nothing, if and only if the boot writes to the flash or the flash is like that already |
| `RBootFind.ConfigRead` | bootloader/rboot/rboot.h:43-63 | A configuration stored as the structure lays it out is read back field by field: mode, current slot, slot for the pin, number of slots, and each address with its lowest byte first |
| `RBootLoader.LoadRom` | bootloader/rboot/rboot-stage2a.c:14-59 | The loader, block by block with any buffer, copies exactly the sections of the image to their addresses, in order, and returns the entry point |
| `RBootLoader.XorOfBytes` | bootloader/rboot/rboot-stage2a.c:14-59 | The checksum taken section by section is that of all copied bytes in a row |
| `RBootLoader.CheckAndLoad` | bootloader/rboot/rboot-stage2a.c:14-59 | Whenever the checker accepts, the loader at that address reads the same headers and copies the same bytes, and 0xEF xored with all of them is the byte stored at the end of the sections rounded up |
| `HttpStrtol.Cutoff` | lib/httpclient/httpclient.c:78-162 | Comparing with limit / base and limit % base before the multiplication is comparing the result with the limit |
| `HttpStrtol.AddDigit` | lib/httpclient/httpclient.c:78-162 | The accumulator is a 32-bit type, so that its products and sums are proved never to wrap |
| `HttpStrtol.Accumulate` | lib/httpclient/httpclient.c:78-162 | The loop's outcome: the value of all digits, or that it exceeds the limit of the signed range |
| `HttpStrtol.EspStrtol` | lib/httpclient/httpclient.c:78-162 | The number at the front of the text, clamped to the 32-bit signed range, and what is left behind it; NumeralRead and NoNumeral say what these are for every numeral and where there is none |
| `HttpStrtol.NumeralRead` | lib/httpclient/httpclient.c:78-162 | A number in any base from 2 to 36, behind any spaces, with or without a sign, with any way to say the base and its letters in either case, is read as the sum of its digits' place values, clamped to 32 bits, and what follows it is left |
| `HttpStrtol.NoNumeral` | lib/httpclient/httpclient.c:78-162 | Where no digit follows the spaces and the sign, the value is zero and nothing was read |
| `HttpStrtol.DigitIs` | lib/httpclient/httpclient.c:138-143 | Each digit below 36 is read as itself in either case, and nothing else is that digit |
| `HttpChunked.SizeRead` | lib/httpclient/httpclient.c:164-199 | A chunk size is read as the number its hexadecimal digits stand for by their places, in either case and whatever extension follows it |
| `HttpChunked.DecodeEncoded` | lib/httpclient/httpclient.c:164-199 | Every well-formed chunked body (section 4.1 of RFC 7230), its sizes written in hexadecimal digits of either case, extensions included, decodes to the data of its chunks in a row |
| `HttpChunked.ChunkedDecode` | lib/httpclient/httpclient.c:164-199 | The decoding loop ends on every text and writes the decoded data and nothing behind it, or would leave the text |
| `HttpResponse.PacketsCollected` | lib/httpclient/httpclient.c:201-232 | Packets that fit together are collected as their concatenation |
| `HttpResponse.DiscardedStays` | lib/httpclient/httpclient.c:201-232 | After something was received, a packet that does not fit discards the response whatever follows |
| `HttpResponse.DiscardIsFinal` | lib/httpclient/httpclient.c:201-232 | A packet too large for the buffer is marked in the result whatever follows if and only if it was not the first |
| `HttpResponse.Response.Receive` | lib/httpclient/httpclient.c:201-232 | One packet through the reallocated buffer |
| `HttpResponse.Response.DecodeBody` | lib/httpclient/httpclient.c:340-357 | The body decoded where it stands, and zeros up to the end of the buffer |
| `HttpResponse.DecodeResponse` | lib/httpclient/httpclient.c:340-357 | For a response whose body is well-formed chunks, the body is the data of the chunks afterwards and the header is as it was |
| `UdpPbuf.Cat` | lib/lwip/core/pbuf.c:822-845 | Linking a buffer behind a chain keeps every buffer's total the length of the chain from it on, as 16 bits |
| `UdpSrv.Srv.Reserve` | lib/libespudpd/udp_srv.c:324-348 | The chain has exactly the buffers that the size needs, or those it had; its old buffers and the offset stay |
| `UdpSrv.BeginsAt` | lib/libespudpd/udp_srv.c:255-267 | The place of a buffer that the code computes from two 16-bit totals is right or 65536 or more too small: always right up to 511 buffers, wrong for the last from 512 on |
| `UdpSrv.Srv.CopySome` | lib/libespudpd/udp_srv.c:255-273 | A round copies a part of the rest or moves to the next buffer, and stays within the buffer if and only if the place of the buffer was computed right |
| `UdpSrv.Srv.CopyAll` | lib/libespudpd/udp_srv.c:255-273 | The loop ends for any number of buffers, and some round leaves its buffer if and only if there are 512 or more |
| `UdpSrv.Srv.Append` | lib/libespudpd/udp_srv.c:245-275 | An append stays within the buffers if and only if what is pending is then at most 65408 characters; then exactly the data is added to it, across buffer boundaries |
| `UdpSrv.Srv.Send` | lib/libespudpd/udp_srv.c:277-322 | The datagram is exactly what was pending, and nothing is pending afterwards |
| `UdpSrv.AppendsThenSend` | lib/libespudpd/udp_srv.c:245-322 | Every append of a sequence stays within the buffers if and only if they are at most 65408 characters together, and then the next send transmits exactly their concatenation |
| `UartRing.TextPut` | lib/driver/uart.c:423-444 | A block stored behind the last character extends the ring's text by it, wherever that is |
| `UartRing.TextTake` | lib/driver/uart.c:462-495 | A block taken from the front leaves the rest of the ring's text |
| `UartRing.Ring.BufCpy` | lib/driver/uart.c:423-444 | Enqueueing in one block or two round the end appends the data to the FIFO when there is room; without room the 16-bit count of free places runs below zero and the ring is one no longer |
| `UartRing.Ring.Dequeue` | lib/driver/uart.c:462-495 | As many of the oldest characters as were asked for, or all there are, leave the FIFO in order; equal positions can only mean an empty ring |
| `UartRing.Ring.FifoInsert` | lib/driver/uart.c:560-571 | The oldest characters go out in order, one by one |
| `UartRing.Ring.RxEnqueue` | lib/driver/uart.c:499-524 | All that the hardware holds is appended when a place stays free, and nothing otherwise: the ring never gets full |
| `UartRing.TextRest` | lib/driver/uart.c:560-571 | Taking from the front, wherever that wraps, leaves the rest |
| `UartPort.Port.TxEnqueue` | lib/driver/uart.c:529-555 | The port keeps its promise, blocks accepted whole or not at all and in order, if and only if there is a ring already or the first block has at most 256 characters; a longer one overwrites its own beginning or leaves the buffer |
| `UartPort.Port.TxStart` | lib/driver/uart.c:580-601 | The characters put out are the next accepted ones, as many as the hardware has room for, and all of them when it has room left |
| `UartPort.Port.RxInterrupt` | lib/driver/uart.c:499-524 | Received characters are those delivered and those waiting, in order; what the hardware holds is taken exactly when a place stays free, and left there otherwise |
| `UartPort.Port.RxRead` | lib/driver/uart.c:462-495 | A read delivers the next received characters in order, and fewer than asked for only when none is left |
| `UartPort.FullWouldOverrun` | lib/driver/uart.c:462-495 | Why the receive ring must not fill up: in a full ring the equal-positions branch would copy past the end |

## Left out

General

- Allocation failure: every allocation succeeds. Interrupts and SDK callbacks are atomic steps; registers, network and
  clock are parameters.
- AVR firmware, display headers, sensors, SPI, I2C, GPIO, key and timer drivers, which are register access.

MQTT

- Building and parsing messages: of `mqtt_msg.c` only the packet length is modelled, with shifts that do not overflow;
  a message is an opaque text of at most 1024 bytes and the received data comes with what the parser reports about it.
- Recv: where the C loop never ends, the method stops and says so, because a method that does not end has no contract.
- TLS, DNS, espconn, the application's callbacks, `pending_msg_id`, client deletion, `PROTO_Parse` with a callback and
  `PROTO_Add`.
- AddRb: covers messages of at most 32767 bytes, because the C function takes a signed 16-bit length.

AirKiss

- The network name behind the password, logging, base lengths of 256 and more, and changing the channel.
- Bit masks that select a field are written as quotients and remainders.

cJSON

- Floating point: a number is an exact mantissa and power of ten; rounding, overflow to infinity, `valueint` and the
  `%f` and `%e` forms of printing are not modelled, and printing covers 32-bit integers.
- PrintBuffered: without layout only, because with layout the tab loop of an object reuses the variable that holds the
  saved offset; and only for texts at least 21 characters below 2^30, where the sizes of the buffer stay exact.
- References (`cJSON_IsReference`, `cJSON_StringIsConst`), access to members by name, and the constructors for arrays.
- Sizes of the allocating printer are unbounded integers.
- MinifyExact: speaks of texts with closed comments and literals and complete escapes; on others the C code leaves
  the text.

Boot loaders

- The tests in `call_user_start` of boot 1.3 that mix `&` with `==`, loading of images, rebooting and printing;
  `bootloader3.c` and `ota_stage1.c`.
- rBoot's `BOOT_IROM_CHKSUM`, `BOOT_CONFIG_CHKSUM` and `BOOT_BIG_FLASH` variants, a configuration with no slots, and
  the pin itself, whose level is a parameter. A slot index past the four declared addresses reads on in the buffer, as
  in the C code.
- SPIRead is taken to fail exactly when the block leaves the flash.

HTTP

- Connecting, requests, the status line, headers and TLS. `http_chunked_decode` returns a position in the encoded
  text, which is what `DecodeEncoded` states.
- EspStrtol: bases from zero on; a negative base has no meaning.

UDP

- Append: after an append has left its buffers nothing is said about the chain; sizes are below 2^31, which is more
  than the chip's memory.
- Addresses, the receiving side and the retries of the network stack.

UART

- The code under `UART_BUFF_EN` is the one that is modelled, although it is switched off by default. After a first
  block that was too long nothing is said about later calls.
