# Verified core of the embedded network library

A model, in Dafny, of the parts of `src/mongoose.c` that carry state or parse bytes, and of the session
lifetime in `src/sessionmgr.cpp` and `src/session.cpp`. `dafny verify dfyconfig.toml` checks
the whole project; it has no axioms and no assumptions.

| file | what it models |
|---|---|
| `Bytes`, `IoBuf` | bytes, machine words, `struct mg_iobuf` |
| `Queue`, `QueueCode` | the lock-free queue, as two threads stepping over shared memory, and its functions as code |
| `WebSocket` | framing: `ws_process`, `mg_ws_cb`, `mkhdr`, `mg_ws_mask`, `mg_ws_send`, `mg_ws_wrap` |
| `FlashLog`, `Flash`, `FlashRuns` | the key/value log in a flash sector, with compaction, and what a load gives after any run of saves |
| `JsonLex`, `Json`, `JsonReader`, `JsonDocument`, `JsonExponents` | `mg_json_get`: strings and numbers, the scanner, a reader that it agrees with, documents, and path "$" |
| `JsonLookup`, `JsonPath`, `JsonNames`, `JsonIndices`, `JsonDetours`, `JsonSafe` | what the other paths find, and which are safe |
| `JsonString` | the JSON strings |
| `Sha1`, `Sha1Stream`, `Sha1Example` | SHA-1: transform and streaming context, and the digest of "abc" |
| `Match`, `MatchStars` | `mg_match`, and what it makes of `*` |
| `MqttProps`, `Mqtt`, `MqttParse` | MQTT integers, properties, publish and parse |
| `Tcp` | `read_conn` of the built-in stack |
| `Chunked` | `skip_chunk` and the in-place decoding of chunked bodies |
| `Base64`, `Timer`, `Numbers` | base 64, `mg_timer_expired`, `mg_lld` and `mg_to_size_t` |
| `Sessions` | `SessionManager` and `Session` over the connection list |

Code that updates memory is imperative here: classes with the source's fields, arrays changed in place,
loops with invariants. Each such method is tied to a function of the old state, and the properties are
proved about that function. The queue is the exception on purpose: its subject is the interleaving of two
threads, so `Queue` is a transition system of single reads and writes, and `QueueCode` proves the
source's functions equal to its steps run to the end.

Where the code falls short of what is meant, the code is modelled as it is. For each of these the exact
condition is proved, as an if-and-only-if over all inputs, and a lemma shows a failing input:

- a flash record of no more than `MG_ROUND_UP(8, align)` bytes, header included, is lost in the last slot of the
  sector, though the save answers true (`SeenExactly`, `SavedFound`, `SavedAndLost`); `SafeExactly` says which
  lengths are free of it. A record whose length fills whole blocks, more than one, is written past its slot
  (`WritesStayInSlot`, `BlockBehind`);
- a load with an old length still finds the old value after the key got a value of another length
  (`LoadExactly`, `LoadAfterRunExactly`, `OldValueLoaded`);
- a number's exponent is cut short once its value reaches 308, and a value that holds such a number in a bracket is
  not found at all (`NumberSpan`, `WholeValueExactly`, `LongExponent`);
- a member whose name has a dot or a bracket is taken for several names of a path: `$.a.b` finds the member
  `a.b` (`DottedName`). The answer to a path without an index before its last place is right exactly when this
  does not happen on its way (`DirectPath`), which names without a dot or a bracket ensure (`PlainIsStraight`).
  Over all documents the paths that are safe from it are those of one name or index (`SafePaths`);
- a path that leads to a value finds it, but for such names (`PathFinds`), but a path with an index before its last
  place can find a value that it does not lead to: where no name has a dot or a bracket, `PlainSafePaths` proves
  that the paths free of this are exactly those without such an index, and `IndexPair` says for every array and
  every two indices what is found. An index just behind the end of the inner array is counted on into the next array
  with something inside, unless an object with something inside comes first (`WrongElement`);
- the property section of an MQTT 5 packet is skipped when fewer than three bytes follow the packet id
  (`PubRoundTrip`, `ShortSectionSkipped`), and `mg_mqtt_next_prop` does not stop at the end of the section, but
  only at an unknown identifier or an integer without an end, be they in the datagram or in the memory behind it
  (`EndOfProps`, `ReadsPastProperties`, `ReadsPastDatagram`);
- a variable-length integer of 2^28 or more needs more than the four bytes of room it has (`FourBytesExactly`);
- `mg_match` misses a match, or never ends, for some subject with a star in it: a pattern is safe for all subjects
  exactly when it has no star at all, and a subject for all patterns without `*` exactly when it has no `#`
  (`SafePatterns`, `SafeSubjects`, `MissedMatch`, `NeverEnds`). For one pattern and one subject that both have
  a `#` either may happen;
- a `*` can take a slash, since the test for one looks at the place of the mismatch, or be given up too early: a
  pattern of literals and `*` is right for all subjects without `*` exactly when no `*` has a slash behind it, but
  for one between two stars (`SafeStarPatterns`, `Crosses`, `StarThenAny`), and a subject is right for all patterns
  exactly when it has neither a star nor a slash (`SafeForAllPatterns`);
- the first FIN acknowledges the whole stream and its own payload is dropped, so what it acknowledges has been
  appended exactly when it ends where the next byte was expected (`AcknowledgedExactly`, `EarlyFin`); and an old
  byte can be taken for a new one exactly when the stream has 2^32 - 1 bytes or more (`StreamLimit`,
  `FirstByteTwice`);
- the size of a chunk is cut to 32 bits (`SizeExactly`, `CutSize`), and a size line without digits passes as the
  last chunk (`Chunked.AcceptedExactly`, `EmptySizeLine`);
- the base 64 decoder takes padding in the middle, a letter behind it, and up to three bytes left over at the end
  (`Base64.AcceptedExactly`, `CanonicalExactly`, `OthersAccepted`);
- a final continuation frame without data and without an open message makes a message of length -1
  (`OverrunExactly`, `EmptyContinuation`).

## Model

| member | source | states |
|---|---|---|
| Queue.QueueIsFifo | src/mongoose.c:5920-5977 | under every interleaving of single reads and writes no assert fails, no access leaves the buffer, and the messages taken are byte for byte the first messages added |
| Queue.NextIsOldest | src/mongoose.c:5953-5965 | `mg_queue_next` returns the length of the oldest message not taken, and 0 only when, at the deciding read, all have been taken |
| Queue.BookKeeps | src/mongoose.c:5940-5951 | the five reads of `tail` keep the layout and the room found, even when `tail` moves between comparison and subtraction |
| Queue.StoreKeepsLayout | src/mongoose.c:5934-5938 | a byte stored where the producer may write overwrites no unread byte |
| Queue.WriteMarkerKeeps | src/mongoose.c:5940-5947 | the zero marker is written to free memory only |
| Queue.AdvanceHeadKeeps | src/mongoose.c:5967-5972 | moving `head` adds exactly the bytes filled in as one message, and the assert holds |
| Queue.ReadLengthKeeps | src/mongoose.c:5926-5932 | the length read at `tail` is that of the oldest message or the marker, and the assert holds |
| Queue.DeleteKeeps | src/mongoose.c:5974-5977 | deleting removes the oldest message and nothing else, and the assert holds |
| Queue.RunKeeps | src/mongoose.c:5920-5977 | the layout invariant holds in every reachable state |
| QueueCode.SharedQueue.constructor | src/mongoose.c:5920-5924 | an empty queue over the given buffer |
| QueueCode.SharedQueue.Book | src/mongoose.c:5940-5951 | run alone, the function ends in the memory, the space and the offset that its steps end in |
| QueueCode.SharedQueue.Next | src/mongoose.c:5953-5965 | the same for `mg_queue_next`, wrap included |
| QueueCode.SharedQueue.Add | src/mongoose.c:5967-5972 | the same for `mg_queue_add` |
| QueueCode.SharedQueue.Del | src/mongoose.c:5974-5977 | the same for `mg_queue_del` |
| QueueCode.SharedQueue.ReadLen | src/mongoose.c:5926-5932 | the little-endian number at `tail` |
| QueueCode.SharedQueue.WriteLen | src/mongoose.c:5934-5938 | four bytes at `head` become the length, no other byte changes |
| QueueCode.ReadSteps | src/mongoose.c:5953-5965 | reading a length byte by byte fails, ends or goes on exactly as the whole word says |
| QueueCode.LengthSteps | src/mongoose.c:5967-5972 | writing a length byte by byte and moving `head` has one outcome, a failed assert included |
| QueueCode.BookedSpace | src/mongoose.c:5940-5951 | run alone, `mg_queue_book` loses no message, returns `len` or more exactly when there is room behind `head` or in front of the records, and then all of it up to the end of the buffer or the oldest message; else 0 |
| IoBuf.Buffer.Resize | src/mongoose.c:2835-2860 | the memory gets the rounded size and keeps the bytes that fit |
| IoBuf.Buffer.Add | src/mongoose.c:2869-2879 | the data is inserted at the offset and the rest moves up; behind the bytes in use, the bytes between are taken in as they are |
| IoBuf.Buffer.Del | src/mongoose.c:2881-2888 | the bytes there are removed, out-of-range arguments are cut down |
| Bytes.XorAt | src/mongoose.c:8315 | bit k of what `^` makes of two bytes is set exactly when their bits k differ |
| Bytes.XorSum | src/mongoose.c:8315 | it is the sum of the powers of two at which they differ |
| Bytes.NibbleOfDigit | src/mongoose.c:7265-7268 | the hexadecimal digits, in both cases, have their values |
| Bytes.DigitOfNibble | src/mongoose.c:7265-7268 | and no other byte passes for a digit |
| WebSocket.WsProcess | src/mongoose.c:8290-8318 | 0 and no change unless a whole frame is there; else its length, header length, data length and flags, with the payload unmasked in place, each byte by the exclusive or with one of the mask (`Bytes.XorAt`) |
| WebSocket.CompleteStays | src/mongoose.c:8290-8318 | more bytes behind a frame change nothing about it |
| WebSocket.Connection.Switch | src/mongoose.c:8406-8433 | the switch on the opcode: events, the replies to PING and CLOSE as encoded frames at the end of the send queue, and draining after a CLOSE |
| WebSocket.Connection.HandleFrame | src/mongoose.c:8400-8455 | one turn of the loop: the switch, then header stripping, removal or delivery, as the reference step; the send queue grows by the replies |
| WebSocket.Connection.OnRead | src/mongoose.c:8390-8459 | a READ event handles all the frames that are complete, and the loop ends; the queue grows by exactly the replies among the events, and the connection drains just when a CLOSE was among them |
| WebSocket.Connection.Receive | src/mongoose.c:8390-8459 | bytes that arrive and the READ event after them, as one step of the reference receiver, replies and draining included |
| WebSocket.SplitsDoNotMatter | src/mongoose.c:8390-8459 | for any bytes at all, any split into READ events leaves the connection as one event with all the bytes does |
| WebSocket.StreamDelivers | src/mongoose.c:8390-8459 | every well-formed frame stream of RFC 6455 section 5.4, split anyhow, delivers exactly the events of the reference decoder of its frames |
| WebSocket.FrameDelivers | src/mongoose.c:8400-8455 | one frame delivers its events and leaves the fragment buffer of the message in progress |
| WebSocket.OverrunExactly | src/mongoose.c:8446-8454 | exactly when a message event gets a negative length |
| WebSocket.EmptyContinuation | src/mongoose.c:8446-8454 | the frame 80 00 does it |
| WebSocket.HelloDelivered | src/mongoose.c:8290-8318 | the examples of RFC 6455 section 5.7: 81 85 37 fa 21 3d 7f 9f 4d 51 58, as one READ event, delivers exactly the text "Hello", and so does the unmasked frame |
| WebSocket.FragmentsDelivered | src/mongoose.c:8400-8455 | "Hel" and "lo" in two fragments deliver "Hello" |
| WebSocket.PingAnswered | src/mongoose.c:8410-8414 | a ping with "Hello" is answered by the pong of section 5.7, unmasked from a server and masked from a client |
| WebSocket.CloseAnswered | src/mongoose.c:8422-8428 | 88 00 is answered by 88 00 |
| WebSocket.LongFrames | src/mongoose.c:8320-8346 | binary messages of 256 and 65536 bytes go out with the headers of section 5.7, and are delivered |
| WebSocket.TooLongStays | src/mongoose.c:8311 | a header that announces more than 2^30 bytes is never taken, whatever comes behind it |
| WebSocket.EncodedFrameRead | src/mongoose.c:8290-8318 | a frame in any of the length forms, masked or not, is read back with its payload |
| WebSocket.Sender.MkHdr | src/mongoose.c:8320-8346 | the header with the shortest length form, and a client's mask |
| WebSocket.Sender.WsSend | src/mongoose.c:8356-8365 | exactly one encoded frame goes to the end of the queue, whose length is returned |
| WebSocket.Sender.WsWrap | src/mongoose.c:8511-8523 | data already queued becomes the bytes that `mg_ws_send` makes of it, with the same mask |
| WebSocket.SentFrameRead | src/mongoose.c:8356-8365 | what `mg_ws_send` sends `ws_process` reads: full length, op and FIN, the payload |
| WebSocket.BigEndianHalves | src/mongoose.c:8331-8338 | the 64-bit length sent as two words is the number in network order |
| FlashLog.SeenExactly | src/mongoose.c:167-185 | a record in its slot is seen by a scan exactly when more than `MG_ROUND_UP(8, align)` bytes are left |
| FlashLog.LostRecord | src/mongoose.c:167-185 | a record of 8 bytes in a sector of one block of 16 is written and never found |
| FlashLog.PackedBytes | src/mongoose.c:255-290 | a record in memory: size and key, least significant byte first, then the data |
| FlashLog.WritesStayInSlot | src/mongoose.c:270-302 | the writes of a save stay inside the record's slot exactly when the length does not fill whole blocks, more than one |
| FlashLog.BlockBehind | src/mongoose.c:270-302 | for 8 bytes in blocks of 8 the slot takes two blocks and three are written |
| FlashLog.SafeExactly | src/mongoose.c:250-302 | the lengths whose records are seen wherever they fit are those that need more than the header's blocks |
| FlashLog.NewestKeepable | src/mongoose.c:215-247 | compaction moves no record up, so each can be kept again |
| FlashLog.LogAppend | src/mongoose.c:250-314 | a record written behind the last one extends the log by it |
| FlashLog.NewestStore | src/mongoose.c:215-247 | compaction changes no value |
| FlashLog.NewestUsed | src/mongoose.c:215-247 | the records kept take no more room than the log did |
| Flash.Sector.NextObject | src/mongoose.c:167-185 | size, key and distance of the next record, 0 at the end |
| Flash.Sector.Load | src/mongoose.c:188-212 | in any state that saves lead to: the newest value that was saved with this key and this length, and kept, else false |
| Flash.LoadExactly | src/mongoose.c:188-212 | that is the value of the key, or nothing, exactly when the key's value has the length or no older record of it has |
| Flash.OldValueLoaded | src/mongoose.c:201-206 | after a value of another length the old one is still loaded |
| Flash.Sector.WriteRecord | src/mongoose.c:270-302 | for any length the first block, the whole blocks and the last block put the record in its slot and end where `WrittenUpTo` says; nothing before it changes, and what is behind the slot stays erased |
| Flash.Sector.Collect | src/mongoose.c:218-236 | the cache holds, per key, the newest record, in the order of the log |
| Flash.Sector.FindCached | src/mongoose.c:222-232 | the inner loop finds the cached copy of a key, if there is one |
| Flash.Sector.Resave | src/mongoose.c:238-245 | a save from the cache fits behind those before it, so it is appended without another cleanup |
| Flash.Sector.AppendRecord | src/mongoose.c:272-302 | a record behind the last one extends the log, or, when a scan cannot see it, leaves the log as it was |
| Flash.Sector.Cleanup | src/mongoose.c:215-247 | the log becomes its newest records; the mutual recursion with the save ends |
| Flash.Sector.Save | src/mongoose.c:250-314 | for any record, after any saves, lost ones included: the log is the old or the compacted one, with the record behind it unless a scan cannot see it; on erased memory the answer is true exactly when the record fits |
| FlashRuns.SaveUpdatesStore | src/mongoose.c:250-314 | a save that is kept sets the value of its key, any other changes no value |
| FlashRuns.SavedFound | src/mongoose.c:188-314 | the value just saved is loaded exactly when the save is kept, or when an older record left in the log has the same key, length and value |
| FlashRuns.SavedAndLost | src/mongoose.c:167-185 | 8 bytes in a sector of one block of 16: there is room, and no load finds them |
| FlashRuns.CompactedLoad | src/mongoose.c:215-247 | right after a compaction no old value is loaded |
| FlashRuns.LastSaveWins | src/mongoose.c:167-314 | after any run of saves, compactions and losses included, every key has the value of the last of its saves that was kept |
| FlashRuns.LoadAfterRun | src/mongoose.c:188-314 | after any run of saves with one length per key, a load gives the value of the last save of the key that was kept, or nothing |
| FlashRuns.LoadAfterRunExactly | src/mongoose.c:188-314 | without a condition on lengths: when that is so |
| FlashRuns.SaveAll | src/mongoose.c:250-314 | a run of saves on a sector leaves the log of the run; with lengths that are safe, the saves kept are those answered with true |
| FlashRuns.SavesThenLoad | src/mongoose.c:188-314 | saves of safe lengths, one length per key, then a load: the value of the last save of the key that was answered with true, or nothing |
| FlashRuns.SaveThenLoad | src/mongoose.c:188-314 | a save and a load of the same key and length, in any state |
| JsonLex.FindQuote | src/mongoose.c:2913-2925 | the loop of `mg_pass_string` |
| JsonLex.JsonEsc | src/mongoose.c:2901-2911 | the loop over the two strings of `escapeseq` gives the letter of a byte, or the byte of a letter |
| JsonLex.BodyPassed | src/mongoose.c:2913-2925 | for every string body of RFC 8259 the true closing quote is found |
| JsonLex.ScanNumber | src/mongoose.c:2927-2970 | the bytes that `mg_atod` consumes |
| JsonLex.NumberRead | src/mongoose.c:2927-2970 | a number of RFC 8259 is consumed entirely exactly when its exponent without the last digit is below 308 |
| JsonLex.ThreeDigitsFit | src/mongoose.c:2956-2964 | three exponent digits are always read |
| Json.MgJsonGet | src/mongoose.c:3022-3163 | the loop over the steps ends in what the run of the scanner gives: offset and length, or one of the three errors |
| Json.NestingIsOpen | src/mongoose.c:3040-3160 | after any number of turns, for any input, the nesting stack is the brackets open in the bytes read, and at most 30 |
| Json.StepOpen | src/mongoose.c:3040-3160 | each step changes the nesting stack just as the brackets in the bytes it reads do, for any input |
| Json.SpanInside | src/mongoose.c:3022-3163 | for any input a span that is found lies inside the text |
| JsonReader.ReaderAgrees | src/mongoose.c:3022-3163 | for any bytes whatever, path "$" gives what a reader by recursive descent gives: the span of the value, or the same error |
| JsonReader.ItemsAgree | src/mongoose.c:3063-3160 | behind an open bracket the scanner with its stack does what that reader does, up to the closing bracket |
| JsonDocument.ValueRun | src/mongoose.c:3066-3160 | a value the path does not look into is passed to its last byte, or is too deep |
| JsonDocument.WholeValue | src/mongoose.c:3022-3163 | path "$" gives the exact start and length of any value whose exponents are short enough, with any white space, unless its nesting exceeds 30; then the error is TOO_DEEP |
| JsonDocument.WordsFound | src/mongoose.c:3085-3090 | "true", "null" and "false" are found, whole |
| JsonDocument.NumbersFound | src/mongoose.c:3091-3095 | "-1.5E+3" and "0e-1" are found, whole |
| JsonDocument.SpaceIs | src/mongoose.c:3057 | white space is that of section 2 of RFC 8259 |
| JsonExponents.WholeValueExactly | src/mongoose.c:3022-3163 | for any value of RFC 8259: the exact span exactly when the nesting is at most 30 and every exponent in it is short enough |
| JsonExponents.NumberCut | src/mongoose.c:2927-2970 | the reading of a number ends behind it or at one of its digits |
| JsonDocument.NumberSpan | src/mongoose.c:2956-2964 | the span of a number is all of it exactly when its exponent is short enough |
| JsonDocument.LongExponent | src/mongoose.c:2956-2964 | of 1e3080 the last digit is left out |
| JsonDocument.NothingLeft | src/mongoose.c:3144-3160 | behind the outermost bracket nothing is found any more |
| JsonLookup.ElementsPassed | src/mongoose.c:3071-3096 | inside an array the elements before the index are passed; the search stands at the element, at the closing bracket, or ends without a result |
| JsonLookup.MembersPassed | src/mongoose.c:3107-3140 | inside an object the members before the first that fits are passed; without one nothing is found |
| JsonLookup.MatchIsFit | src/mongoose.c:3116-3125 | a key is accepted just when it is the start of the path left, up to a dot, a bracket or the end |
| JsonLookup.DepthIsEnough | src/mongoose.c:3026 | an array or object within the nesting limit has no item that is too deep |
| JsonNames.PathFinds | src/mongoose.c:3022-3163 | every path of names and indices that leads to a value, each name being that of a member and no member before it fitting better, finds it: the span is exactly its text, unless something up to its end is nested deeper than 30; then the error is TOO_DEEP |
| JsonNames.DirectPath | src/mongoose.c:3022-3163 | with no index before the last place, the answer is right exactly when the first member that fits is the one named, all the way, or when neither leads anywhere |
| JsonNames.PlainIsStraight | src/mongoose.c:3116-3125 | which is so when no member's name has a dot or a bracket |
| JsonNames.StraightAgrees | src/mongoose.c:3116-3125 | then both readings of a path lead to the same value at the same place |
| JsonNames.NamesApart | src/mongoose.c:3116-3125 | where they differ, the value found lies before the value meant |
| JsonPath.ArrayElement | src/mongoose.c:3022-3163 | path "$[k]" gives the exact span of element k just when k is below the count and nothing up to it is too deep, else a negative result |
| JsonPath.ObjectMember | src/mongoose.c:3107-3160 | path "$.name" gives the exact span of the value of the first member with that name, else a negative result |
| JsonIndices.IndexPair | src/mongoose.c:3071-3160 | path "$[a][b]" on any array: the exact span when element a is an array with more than b elements; nothing when it is no array, is not there, or has fewer than b; with exactly b, what the items behind it decide, and the wrong span that is then returned |
| JsonIndices.WrongElement | src/mongoose.c:3071-3082 | path "$[0][1]" on `[[5],[6]]` finds the 6 of the other array |
| JsonDetours.OnlyDirectPathsAreSafe | src/mongoose.c:3071-3160 | for every path with an index before its last place there is a document, without a dot or a bracket in its names, in which it leads nowhere and finds something |
| JsonSafe.NamesMislead | src/mongoose.c:3116-3125 | for every path that starts with a name and goes on there is a document in which it leads nowhere and finds something |
| JsonSafe.SafePaths | src/mongoose.c:3022-3163 | the paths whose answer is right in every text are "$" and those of one name or index |
| JsonSafe.PlainSafePaths | src/mongoose.c:3022-3163 | over the texts without a dot or a bracket in their names they are those without an index before the last place |
| JsonSafe.DottedName | src/mongoose.c:3116-3125 | path "$.a.b" on `{"a.b":1,"a":{"b":2}}` finds the 1 |
| JsonString.Qcpy | src/mongoose.c:5838-5850 | the escaped text up to a zero byte, and its length |
| JsonString.JsonUnescape | src/mongoose.c:3184-3207 | the unescaped text with a final zero, or false for an escape that is not understood or too little room |
| JsonString.JsonGetStr | src/mongoose.c:3209-3221 | the unescaped string at the path, or null |
| JsonString.EscapedPassed | src/mongoose.c:2913-2925 | the closing quote behind escaped text is found |
| JsonString.EscapeUndone | src/mongoose.c:3184-3207 | unescaping undoes escaping |
| JsonString.QuotedReadsBack | src/mongoose.c:3209-3221 | a string without zero bytes, printed by `qcpy` between quotes, is read back unchanged |
| JsonString.UnicodePiece | src/mongoose.c:3187-3193 | `\u00` and two hexadecimal digits of either case stand for 16 times the first plus the second |
| JsonString.UnicodeUndone | src/mongoose.c:3184-3207 | any bytes, zero bytes included, that are all written so are unescaped to what they were |
| Sha1.NextWord | src/mongoose.c:6099-6120 | `blk0` and `blk` give word t of the 80-word schedule from 16 words of memory |
| Sha1.DoRound | src/mongoose.c:6120-6135 | a macro R0 to R4, which renames registers, is a round of FIPS 180-4 section 6.1.2 |
| Sha1.Transform | src/mongoose.c:6136-6241 | the transform is the compression function of FIPS 180-4, its constants and rotations as `KIsRoot` and `Rol5Number` to `Rol30Number` say |
| Sha1.SwapWord | src/mongoose.c:6099-6106 | the byte swap makes a big-endian word of a little-endian one |
| Sha1.CodeAgrees | src/mongoose.c:6118-6134 | the functions as the macros spell them are Ch, Parity and Maj |
| Sha1.HashSplit | src/mongoose.c:6252-6270 | hashing whole blocks may stop and go on at any block |
| Sha1.KIsRoot | src/mongoose.c:6120-6134 | the constant of each group of rounds is the whole part of 2^30 times the square root of 2, 3, 5 or 10 |
| Sha1.Rol1Number | src/mongoose.c:6097 | rotating by 1 is x * 2 modulo 2^32 plus x / 2^31, on integers |
| Sha1.Rol5Number | src/mongoose.c:6097 | by 5, x * 2^5 modulo 2^32 plus x / 2^27 |
| Sha1.Rol30Number | src/mongoose.c:6097 | by 30, x * 2^30 modulo 2^32 plus x / 2^2 |
| Sha1.InitialBytes | src/mongoose.c:6243-6249 | the five initial words, byte by byte |
| Sha1.WordBytesInverse | src/mongoose.c:6288-6291 | the bytes of the digest, put together again, are the words |
| Sha1Stream.Context.constructor | src/mongoose.c:6243-6250 | the initial hash value, nothing fed |
| Sha1Stream.Context.Update | src/mongoose.c:6252-6270 | the context stands for all bytes fed so far, however they were split |
| Sha1Stream.Context.Final | src/mongoose.c:6272-6294 | the digest of FIPS 180-4 of the whole message; the context is wiped |
| Sha1Stream.CountAdd | src/mongoose.c:6256-6258 | the two words count bits modulo 2^64, the carry included |
| Sha1Stream.GapIsSmallest | src/mongoose.c:6281-6286 | the padding is that of FIPS 180-4 section 5.1.1 |
| Sha1Stream.LengthBytes | src/mongoose.c:6276-6280 | the final count is the bit length in network order |
| Sha1Example.AbcDigest | src/mongoose.c:6136-6294 | the digest of "abc" is a9993e36 4706816a ba3e2571 7850c26c 9cd0d89d |
| Match.MgMatch | src/mongoose.c:7190-7220 | whenever its loop ends: the answer of the run; without '*' a match reported is one, and when the subject has no star of the pattern the answer is the glob relation; so it is for all patterns that `MatchStars` shows to be decided |
| Match.DecidesUnlessClash | src/mongoose.c:7190-7220 | without a star of the pattern in the subject the loop ends, and with the right answer |
| Match.GlobIsRest | src/mongoose.c:7190-7220 | cutting the subject into one piece per pattern element is the same as matching element by element |
| Match.OneElement | src/mongoose.c:7190-7220 | '#' matches any piece, '*' any without a slash, '?' one byte, any other byte itself |
| Match.StepCovers | src/mongoose.c:7193-7214 | going back to the last star only loses no match |
| Match.OldStarForgotten | src/mongoose.c:7204-7206 | a match through an earlier star is one through the last |
| Match.StepProgresses | src/mongoose.c:7193-7214 | when no star of the pattern is in the subject, every turn of the loop brings the end nearer, for '*' as well |
| Match.NoFalseMatch | src/mongoose.c:7190-7220 | for any subject a match that is reported is one |
| Match.MissedMatch | src/mongoose.c:7194-7203 | "#" against "#a" is not reported |
| Match.NeverEnds | src/mongoose.c:7193-7214 | "#b" against "a#c" goes round for ever |
| Match.SafePatterns | src/mongoose.c:7190-7220 | a pattern gets the right answer for every subject exactly when it has neither '#' nor '*' |
| Match.SafeSubjects | src/mongoose.c:7190-7220 | a subject gets the right answer for every pattern without '*' exactly when it has no '#' |
| MatchStars.StepGood | src/mongoose.c:7193-7214 | for such a pattern as `SafeStarPatterns` has, every turn of the loop keeps the match, or the lack of one |
| MatchStars.StarForgotten | src/mongoose.c:7204-7206 | a match through an earlier '*' is one through the last, slashes considered |
| MatchStars.SafeStarPatterns | src/mongoose.c:7190-7220 | a pattern of literals and '*' gets the right answer for every subject without '*' exactly when no '*' has a slash behind it, but for one between two stars |
| MatchStars.Crosses | src/mongoose.c:7207 | for every other such pattern, a subject with one slash more than the pattern, which is matched |
| MatchStars.SafeForAllPatterns | src/mongoose.c:7190-7220 | a subject gets the right answer for every pattern exactly when it has neither '#' nor '*' nor '/' |
| MatchStars.StarThenAny | src/mongoose.c:7207 | "*?" is said to match "/a" |
| MqttProps.VarintSize | src/mongoose.c:3607-3614 | the number of bytes of the encoding |
| MqttProps.EncodeVarint | src/mongoose.c:3616-3627 | the encoding of MQTT 5.0 section 1.5.5 |
| MqttProps.DecodeVarint | src/mongoose.c:3629-3642 | value and size, or 0 when no end is found in four bytes |
| MqttProps.VarintRoundTrip | src/mongoose.c:3616-3642 | decoding undoes encoding, whatever follows |
| MqttProps.MqttPropTypeById | src/mongoose.c:3644-3650 | the loop over `s_prop_map` gives the type of every identifier of MQTT 5.0 section 2.2.2.2, and of no other |
| MqttProps.NumberLayout | src/mongoose.c:3714-3722 | properties with one, two and four bytes, on the wire |
| MqttProps.IntLayout | src/mongoose.c:3731-3734 | one with a variable-length integer of at most two bytes |
| MqttProps.TextLayout | src/mongoose.c:3708-3730 | ones with a text, binary data and a pair of texts |
| MqttProps.PropertiesLength | src/mongoose.c:3654-3687 | the length of the bytes that are sent for the properties up to the first unknown one, its identifier included |
| MqttProps.SendProperties | src/mongoose.c:3697-3737 | that length, then every property; for properties that fit the format, the section of the standard |
| MqttProps.FourBytesExactly | src/mongoose.c:3700-3702 | the four bytes of room for a variable-length integer are enough exactly below 2^28 |
| MqttProps.PropRead | src/mongoose.c:3739-3791 | a property that was sent is read back, and the offset of the next |
| Mqtt.Client.SendHeader | src/mongoose.c:3586-3597 | command, flags and the remaining length, of which at most four bytes are written |
| Mqtt.Client.Pub | src/mongoose.c:3858-3879 | the bytes sent for any options; for options that fit, one packet whose remaining length is that of what follows it, properties included; the packet id moves on past 0 |
| Mqtt.IdsGoRound | src/mongoose.c:3871-3874 | the packet ids go round from 1 to 65535, so one comes again only after all the others |
| MqttParse.MgMqttParse | src/mongoose.c:3896-3964 | the loop over the length bytes and the branches per command, which `ConnackRead`, `IdRead`, `AnyPublishRead` and `HeaderOnlyRead` tell for every packet, and `PartOfPacket` for a part of one |
| MqttParse.PubRoundTrip | src/mongoose.c:3896-3964 | parsing a published packet gives topic, quality of service, id and length back, and the message and properties exactly when the packet is not of version 5 or three bytes follow the id |
| MqttParse.ConnackRead | src/mongoose.c:3921-3924 | of a CONNACK packet, whatever follows it, the second byte is the return code; it is malformed exactly when it has less than two |
| MqttParse.IdRead | src/mongoose.c:3925-3936 | of the commands 4 to 11 the first two bytes are the packet id, malformed alike |
| MqttParse.AnyPublishRead | src/mongoose.c:3938-3958 | of a PUBLISH packet with any body: when it is malformed, and else the topic, the packet id, the properties and the message, byte by byte |
| MqttParse.HeaderOnlyRead | src/mongoose.c:3959-3963 | of any other command but PUBLISH only the header is read |
| MqttParse.PartOfPacket | src/mongoose.c:3907-3917 | as long as a byte of a packet is missing the answer is that more is needed |
| MqttParse.PropsIterate | src/mongoose.c:3739-3791 | from offset 0 the properties come in order, and the last offset is the size of the section |
| MqttParse.ShortSectionSkipped | src/mongoose.c:3949-3954 | a version 5 packet without properties and with a message of one byte: the section becomes part of the message |
| MqttParse.EndOfProps | src/mongoose.c:3739-3791 | behind the last property the answer is 0 exactly when the byte that follows in memory, in the datagram or behind it, is an unknown identifier, or that of an integer without an end |
| MqttParse.SectionInside | src/mongoose.c:3949-3957 | the section that the parser finds lies in the datagram, as `EndOfProps` asks |
| MqttParse.ReadsPastProperties | src/mongoose.c:3745-3748 | a packet of nine bytes, parsed: at the end of its one property the message is read as another |
| MqttParse.ReadsPastDatagram | src/mongoose.c:3745-3748 | one of seven bytes: with an empty message it is the byte behind the datagram |
| Tcp.Connection.ReadConn | src/mongoose.c:4688-4776 | all fields, the reply and the appended bytes after one segment |
| Tcp.ReceiveInOrder | src/mongoose.c:4688-4776 | a segment of the stream keeps the bytes in order and `ack` at the next byte |
| Tcp.AppendsTheStream | src/mongoose.c:4688-4776 | under any loss, duplication and reordering the bytes appended are one contiguous slice of the stream |
| Tcp.AcknowledgedExactly | src/mongoose.c:4695-4712 | once a FIN has come, all that is acknowledged has been appended exactly when the FIN ended where the next byte was expected |
| Tcp.EarlyFin | src/mongoose.c:4695-4712 | a FIN before any data acknowledges all of it |
| Tcp.StreamLimit | src/mongoose.c:4688-4776 | the bytes stay in order whatever comes in exactly when the stream is shorter than 2^32 - 1 bytes |
| Tcp.FirstByteTwice | src/mongoose.c:4695-4701 | for 2^32 - 1 bytes the first byte is appended again after the FIN |
| Tcp.AnsweredExactly | src/mongoose.c:4695-4728 | a segment is answered exactly when it has a FIN, or data that neither starts nor ends at the next byte expected; a FIN with its number plus one, the others with what is acknowledged already |
| Tcp.AnswersAcknowledge | src/mongoose.c:4713-4728 | until a FIN, under any loss, duplication and reordering, every answer acknowledges exactly the bytes appended |
| Tcp.OneFinSent | src/mongoose.c:4695-4712 | over any run exactly one FIN is sent in answer if one comes, and the connection is closing from then on |
| Chunked.Skipped | src/mongoose.c:2708-2719 | one chunk found, more bytes needed, or an error |
| Chunked.DecodeInPlace | src/mongoose.c:2745-2766 | both passes on the array: the data together at the start, the offset behind the empty chunk, every other byte as it was; an error and a body still incomplete are told apart |
| Chunked.StripChunk | src/mongoose.c:2759-2763 | one memmove of the second pass changes no byte that is still to be read |
| Chunked.PieceSkipped | src/mongoose.c:2708-2719 | a chunk that is fully buffered is found with its data |
| Chunked.ChunksDecode | src/mongoose.c:2745-2766 | every list of non-empty chunks and an empty one decodes to the concatenated data, whatever follows |
| Chunked.DecodedIsChunks | src/mongoose.c:2745-2766 | and whatever decodes is such a list |
| Chunked.WellFormedDecodes | src/mongoose.c:2745-2766 | a body of chunks as RFC 9112 has them decodes to their data |
| Chunked.WriteChunk | src/mongoose.c:2084-2089 | the length in hexadecimal, the data, and the line ends |
| Chunked.SentDecodes | src/mongoose.c:2084-2089 | what it sends for any pieces of data, and then for none, decodes to the data |
| Chunked.DecodeSent | src/mongoose.c:2745-2766 | so the second pass leaves the data at the start of the buffer |
| Chunked.TenBytes | src/mongoose.c:2745-2766 | "a", ten bytes and the empty chunk decode to the ten bytes |
| Chunked.AcceptedExactly | src/mongoose.c:2708-2719 | a chunk that `skip_chunk` finds is one of RFC 9112 just when its size line has a digit and spells less than 2^31 |
| Chunked.EmptySizeLine | src/mongoose.c:2711-2713 | a size line without digits passes as the last chunk |
| Chunked.SizeExactly | src/mongoose.c:2713 | the length found is the number of the size line exactly when that is below 2^31 |
| Chunked.CutSize | src/mongoose.c:2713 | "100000001" passes as the size of one byte |
| Chunked.SizeIsCut | src/mongoose.c:2713 | a size line beyond 32 bits passes as its low part |
| Base64.Update | src/mongoose.c:57-71 | one more byte: letters, and the bits of the next letter |
| Base64.Final | src/mongoose.c:73-82 | the unfinished block with its padding and a final zero |
| Base64.Encode | src/mongoose.c:84-91 | the encoding of RFC 4648 section 4, or 0 when it does not fit; no write passes the size tested |
| Base64.Alphabet | src/mongoose.c:27-37 | the letters are those of RFC 4648 section 4 |
| Base64.TestVectors | src/mongoose.c:84-91 | "f" to "foobar" are encoded as in section 10 |
| Base64.Bcpy | src/mongoose.c:5852-5867 | the block encoder prints the same text |
| Base64.DecodeTo | src/mongoose.c:93-112 | the decoded bytes and a final zero, or 0 |
| Base64.RoundTrip | src/mongoose.c:84-112 | decoding undoes encoding |
| Base64.AcceptedExactly | src/mongoose.c:93-112 | a text is decoded exactly when each of its groups of four is two letters and then letters or padding; what is left over does not count |
| Base64.CanonicalExactly | src/mongoose.c:93-112 | encoding undoes decoding for the canonical texts of RFC 4648, and for no others |
| Base64.OthersAccepted | src/mongoose.c:93-112 | "YQ==YQ==", "YQ=b" and "YQ==x" are decoded |
| Timer.Timer.Poll | src/mongoose.c:7315-7321 | the next expiry and the answer, with wrap-around |
| Timer.ExpiryMoves | src/mongoose.c:7315-7321 | each expiry moves on by a period or more, with dense polls by exactly one |
| Timer.FiresOncePerPeriod | src/mongoose.c:7315-7321 | at most one expiry per period since the start; with polls at most a period apart exactly one, congruent to the start |
| Numbers.MgToSizeT | src/mongoose.c:1770-1787 | accepts exactly the padded numerals below 2^64, and returns their value |
| Numbers.OneValue | src/mongoose.c:1770-1787 | a text spells one number at most |
| Numbers.MgLld | src/mongoose.c:1027-1047 | sign and digits, written backwards and reversed in place |
| Numbers.PrintedReadsBack | src/mongoose.c:1027-1047 | what is printed for a 64-bit value spells that value |
| Numbers.PrintedHex | src/mongoose.c:1027-1047 | in hexadecimal, what is printed for a 64-bit value is made of digits that spell it, without a leading zero |
| Numbers.PrintedNegative | src/mongoose.c:1027-1047 | for a negative value, a minus sign and the digits of its amount |
| Sessions.Session.constructor | src/session.cpp:6-18 | the connection is bound to the new session |
| Sessions.Session.OnTimerEvent | src/session.cpp:25-33 | a vanished peer's connection is marked for closing, any other is pinged |
| Sessions.SessionManager.Iterate | src/sessionmgr.cpp:125-144 | the sessions handed out are those up to the first connection without one; each is alive, bound to a connection in the list, and met once |
| Sessions.SessionManager.AddSession | src/sessionmgr.cpp:80-90 | a new session, bound, that has sent the low 32 bits of its connection's id |
| Sessions.SessionManager.Upgrade | src/sessionmgr.cpp:32-45 | the connection gets a session in any case; one it had before is forgotten, alive |
| Sessions.SessionManager.Accept | src/mongoose.c:4601-4627 | a new connection comes to the head of the list, without a session, and with an id above all in the list; no session is touched |
| Sessions.SessionManager.TimerEvent | src/sessionmgr.cpp:18-23 | exactly the sessions that are reached get the event: a ping, or their connection is marked; no other session or connection changes |
| Sessions.SessionManager.Control | src/sessionmgr.cpp:59-67 | a pong, and nothing else, renews the session of its connection |
| Sessions.SessionManager.UpdateSessionsList | src/sessionmgr.cpp:146-160 | every session reached is sent the list of all of them, no other session anything |
| Sessions.SessionManager.DeleteSession | src/sessionmgr.cpp:91-101 | only a session that is alive and bound to no connection in the list is deleted, then the others hear of it |
| Sessions.SessionManager.Close | src/mongoose.c:5336-5351 | the connection leaves the list before its session is deleted; no other session is deleted, and none twice |
| Sessions.SessionManager.CloseEvent | src/sessionmgr.cpp:69-77 | what the event does, a late upgrade included |
| Sessions.SessionManager.GetSessionById | src/sessionmgr.cpp:109-118 | of the sessions reached the last one whose connection's id has these low 32 bits, or null; while ids are below 2^32, the session of the connection with that id, if it is reached |
| Sessions.VisibleOnce | src/sessionmgr.cpp:125-144 | no session is handed out twice |
| Sessions.EntriesAt | src/sessionmgr.cpp:146-156 | the list that is sent has one entry for each session, in their order, with the low 32 bits of its connection's id and its user |

## Left out

- Sockets, TLS, files, DNS, HTTP header parsing and the hardware drivers: input and output, and calls into other code.
- Allocation failure: every allocation succeeds.
- Weak memory: the queue's steps are sequentially consistent, which stands for `MG_MEMORY_BARRIER`.
- Flash hardware: erasing succeeds, and so does programming of erased memory; what programming other memory does to it is left open. A write behind the end of the sector reaches the next one, which is not modelled. Blocks of 8 bytes or more, as both devices have them, are written aligned; the refusal of an unaligned write, which smaller blocks could meet, is not modelled. Neither are the address checks on a sector, nor the read of a size at the very end of a sector, whose value is not used.
- Queue.QueueIsFifo: the buffer is below 2^64 - 2^32 - 8 bytes, which any address space ensures, so no offset wraps.
- WebSocket.StreamDelivers: for payloads up to 2^30 bytes; `SplitsDoNotMatter` has no bound. The handshake of a client and the text of the errors are not modelled; replies and events are logged in the order the code makes them.
- FlashRuns.SavesThenLoad: for lengths that are safe and one length per key; `LoadAfterRunExactly` and `SavedFound` have neither condition.
- JsonPath.ArrayElement: indices and lengths are unbounded numbers; an index beyond the C int overflows in the source.
- JsonSafe.SafePaths: for paths of at most 30 steps, whose names a JSON text can spell; which wrong value a longer path than "$[a][b]" finds is not stated. Names are compared byte by byte, escapes included, as in the source.
- JsonReader.ReaderAgrees: for path "$"; for other paths, of texts that are no JSON only `NestingIsOpen` and `SpanInside` are stated.
- JsonNames.PathFinds: on texts whose exponents are short enough; `WholeValueExactly`, for path "$", is on all texts.
- JsonExponents.WholeValueExactly: the value that `mg_atod` computes is not modelled, only the bytes it takes. `mg_json_next` is not modelled.
- JsonString.JsonGetStr: of the escape `\u` the codes below 256, as in the source; any other code makes the answer null.
- Match.MgMatch: captures are not modelled. For patterns in which '?' or '#' stands beside '*', which subjects with a slash get the right answer is not stated.
- MqttProps.SendProperties: what a variable-length integer of more than four bytes does to the memory behind its room is not modelled.
- MqttProps.PropRead: a byte behind the memory given counts as zero, where the source reads whatever is there; for a variable-length integer the source stores eight bytes into a field of four, of which the four are modelled.
- MqttParse.PubRoundTrip: for packets below 2^28 bytes, the limit of the format.
- Tcp.AppendsTheStream: segments carry no options, and the decryption behind a TLS connection is not modelled.
- Chunked.ChunksDecode: a size line that has arrived in part is an error in the source and here; trailer fields and chunk extensions are errors too. A size close to 2^31 overflows an int in the source.
- Numbers.MgLld: the caller's buffer must hold the text, as the source's does.
- Sessions.SessionManager.Iterate: it is not claimed to reach every session, since it stops at the first connection that is no WebSocket. `UpdateSession` and the sending of files are not modelled.
- MD5, DHCP, ARP, ICMP, OTA, formatted printing and floating point: easier or outside the reach of these properties.
