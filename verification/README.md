# A verified model of the radio interface daemon

The daemon sits between a telephony client on a socket and a modem on a
serial line. This project models its stateful cores in Dafny 4.11 and proves
what they promise. `dafny verify dfyconfig.toml` checks all of it.

| file | what it models |
|---|---|
| `Basics.dfy`, `Descriptors.dfy` | bytes, units, limits; `read` and `write` that transfer any amount or fail |
| `Codec.dfy`, `CodecMeaning.dfy` | modified UTF-8 to UTF-16 and back (the encoding of section 4.4.7 of the Java Virtual Machine Specification), with sizing passes; what sequences and surrogate pairs are worth |
| `RecordStream.dfy` | length-prefixed records: the buffered reader, the writer, whole connections |
| `Parcel.dfy` | the growable byte buffer, its item format and its round trip |
| `StringMarshal.dfy`, `IntMarshal.dfy` | C strings, lists of strings and lists of integers through a parcel |
| `LineReader.dfy` | the line splitter of the AT channel |
| `AtCommand.dfy`, `AtLines.dfy` | what a line does to a pending response, as a function and in the linked list in memory |
| `AtReader.dfy` | the reader thread, from bytes to the pending response |
| `AtProtocol.dfy`, `AtErrors.dfy`, `AtService.dfy` | the AT channel's threads, mutexes and response slot as a transition system; what its calls report, and that they can be served |
| `Timers.dfy`, `EventList.dfy`, `EventLoop.dfy` | timeval arithmetic, circular lists, the timer and pending lists |
| `WatchTable.dfy`, `EventTurn.dfy` | the descriptor table; a whole turn of the event loop, callbacks included |
| `EventRuns.dfy`, `EventMemory.dfy` | every interleaving of the loop with threads that add timers; its steps on the lists in memory |
| `Requests.dfy`, `RequestRuns.dfy` | the pending-request list, its callers and responses; every run of accepting, completing and disconnecting |
| `AtTok.dfy`, `Registration.dfy`, `Operators.dfy` | the AT tokeniser and two parsers of modem answers |

Code that works in place is modelled by classes, arrays and loops whose
`ensures` tie the new state to a specification function of the old one; the
properties are then proved of those functions. Threads are modelled as steps
of a transition system; a run is any finite sequence of enabled steps.

Main results:

* Framing: under every schedule of short or failing reads and partial writes the
  records delivered are the pure parse of the byte stream, in order; unless a
  write fails everything is sent, and enough rounds deliver everything; and
  whatever writes fail, a client can parse exactly the responses that were
  reported as sent.
* Line splitting: on a stream of bounded lines, none beginning with the prompt,
  the lines read are the reference splitting however the bytes are chunked, all
  of it unless a read fails, and a command's response is what it is due among
  them.
* AT protocol: in every interleaving the response slot is empty when a command
  starts, every response object has one owner, "ok" comes with a final result
  of the right class, and the PDU is written at most once; what a call reports
  is what the steps of its last try make it, each error with its one cause; and a
  call on an open channel can always run to its end and get what it is due.
* Event loop: no lost wakeup; timers fire in order of deadline, once each,
  after their deadline, in every run, and each one due at a pass has fired when
  the loop is back at its top; one return of `select` calls exactly the
  expired timers and then the ready descriptors, leaves the watches that their
  calls make of the table and every other timer as it was, and keeps lists,
  table, read set and nfds in agreement.
* Strings: every UTF-8 sequence, wherever it stands in a text, is decoded to its
  code point's unit or surrogate pair, and one that breaks off to U+FFFD; the
  codec is the identity on every sequence of units; a C string
  survives the parcel unchanged exactly when it is canonical, and changes at
  most once otherwise; lists of strings are inverted.
* Parcel: any list of items is read back; an append-only run carries at most
  three times its final size across reallocations.
* Requests: each one selects the table entry made for it; at most one response
  each, exactly when its first completion went out while its own client was
  there, never on a later connection; and the pending list is always what was
  accepted and not completed.
* Parsers: printed fields are tokenised back; every printed registration form,
  zero-padded or in capitals or not, with white space before a field or not, is
  parsed back; the operator list is reduced
  to first occurrences.

Where the code departs from its documentation the model follows the code:

* record lengths are 32 bits wide (`librilutils/record_stream.c:71-91`), not
  16 as the header comment says;
* `Parcel::write` and `Parcel::writeString16` report success after a refused
  growth (`libril/parcel.cpp:179-194`, `libril/parcel.cpp:247-266`): `growData`
  refuses without setting `mError`. The first writes nothing, the second a length
  word without its text, which is read back as no string. `Parcels.Parcel.Write`
  and `Parcels.Parcel.WriteString16` state exactly when, and
  `Parcels.WriteIsSilent` and `Parcels.WriteString16IsSilent` give the inputs;
* `responseInts` takes the number of integers from the size of a pointer
  (`libril/ril.cpp:1563`), so that with pointers of eight bytes half of them
  are sent; `IntMarshal.SentWhole` says exactly when all are, and
  `IntMarshal.OneIntLost` gives an input;
* `strdup8to16` hands the result of `malloc` to the copying pass without looking
  at it (`librilutils/strdup8to16.c:108-111`); the copy goes through NULL exactly
  when `Codec.NullIsWritten` says so;
* `ril_event_del` is described as removing an event from the watch or the timer
  list (`libril/ril_event.cpp:319`), but leaves the timer list, and an event that
  is pending, alone;
* a request whose parcel its dispatch function cannot read is logged and never
  completed (`libril/ril.cpp:422-426`), so it stays pending and unanswered
  (`RequestRuns.NeverCompletedNeverAnswered`);
* the sizing pass `strlen8to16` may exceed the copying pass; `Codec.SizingAgrees`
  gives the exact condition for equality;
* a numeric operator code in quotes, as in the comment at
  `reference-ril/at_network.c:521`, fails the length check
  (`Operators.QuotedCodeFails`);
* `at_tok_hasmore` does not announce a last field printed as nothing
  (`AtTok.MoreExactly`);
* after an error of a response function the bytes it had written stay behind
  the error code (`Requests.BuildResponse`).

## Model

| member | source | states |
|---|---|---|
| Codec.Strnlen16to8 | librilutils/strdup16to8.c:28-90 | the fast and the slow path both give the bytes that the copying pass writes, saturated at SIZE_MAX - 1 |
| Codec.Strncpy16to8 | librilutils/strdup16to8.c:104-130 | the encoding and one terminator are written, and nothing behind them is touched |
| Codec.Strndup16to8 | librilutils/strdup16to8.c:133-157 | NULL exactly for NULL, a length the counter cannot hold, or a failed allocation |
| Codec.SeqLengthMacro | librilutils/strdup8to16.c:28 | the shift-and-mask macro is the table of sequence lengths |
| Codec.GetUtf32FromUtf8 | librilutils/strdup8to16.c:54-88 | one character of any text, malformed ones included, consuming at least one byte and staying inside the text |
| Codec.Strcpy8to16 | librilutils/strdup8to16.c:156-182 | terminates on every text and fills the array with its decoding |
| Codec.Strlen8to16 | librilutils/strdup8to16.c:120-150 | the sizing count as a function of the text |
| Codec.SizingAgrees | librilutils/strdup8to16.c:120-182 | for every text the size is never too small, and exact if and only if every four-byte leader begins a complete sequence worth a surrogate pair |
| Codec.Strdup8to16 | librilutils/strdup8to16.c:94-112 | with memory the buffer sized by the first pass is never overrun by the second; a write through NULL exactly when there is no memory for a text that is not empty and whose size can be asked for |
| Codec.NullIsWrittenForOneLetter | librilutils/strdup8to16.c:108-111 | one letter and no memory are such a case |
| Codec.DecodeEncode | librilutils/strdup16to8.c:104-130 | decoding an encoding is the identity on all sequences of units, zeros and lone surrogates included |
| Codec.EncodeDecode | librilutils/strdup8to16.c:156-182 | encoding a decoding is the identity exactly on canonical modified UTF-8 |
| Codec.EncodeCanonical | librilutils/strdup16to8.c:104-130 | what is encoded is canonical |
| CodecMeaning.SequenceDecoded | librilutils/strdup8to16.c:54-182 | a whole sequence of one to four bytes, wherever it stands in a text, is decoded to the one unit of its value, or above U+FFFF to a high and a low surrogate that stand for it (section 2.1 of RFC 2781), or from U+10FFFE on to U+FFFD; what is around it is decoded as without it |
| CodecMeaning.DecodeAppend | librilutils/strdup8to16.c:54-182 | where a character starts a text can be cut: neither side's decoding depends on the other |
| CodecMeaning.BrokenOffDecoded | librilutils/strdup8to16.c:54-88 | a sequence that breaks off becomes one U+FFFD, and the next character starts at the byte that broke it off |
| CodecMeaning.StrayDecoded | librilutils/strdup8to16.c:54-88 | a continuation byte without a leader becomes one U+FFFD |
| CodecMeaning.EmojiDecoded | librilutils/strdup8to16.c:156-182 | F0 9F 98 80 is D83D DE00 |
| CodecMeaning.UnitEncoded | librilutils/strdup16to8.c:104-130 | every unit is encoded by one sequence worth it, the shortest, but two bytes for NUL |
| RecordStream.ParseFrames | librilutils/record_stream.c:71-110 | framed records in front of anything are what the pure parse finds first |
| RecordStream.FrameLayout | libril/ril.cpp:1500-1539 | a frame is the length in four bytes, the most significant first, and the data |
| RecordStream.BlockingWrite | libril/ril.cpp:1472-1498 | all of the buffer is written, or less than all of it and the descriptor is closed; a closed one takes nothing; on an open descriptor where no write fails it is all written, however partially and however often interrupted |
| RecordStream.SendResponseRaw | libril/ril.cpp:1500-1539 | one frame on the socket, or less than one and the descriptor closed; nothing without a descriptor, on a closed one or for data too large; where no write fails, the frame exactly if the data are not too large |
| RecordStream.SendAll | libril/ril.cpp:1500-1539 | payloads sent one after another are the concatenation of their frames, and all are sent where no write fails |
| RecordStream.RecordReader.constructor | librilutils/record_stream.c:45-62 | an empty buffer with room for one record and its header |
| RecordStream.RecordReader.GetNextRecord | librilutils/record_stream.c:93-110 | takes the first record off the undelivered stream if it is all buffered |
| RecordStream.RecordReader.Compact | librilutils/record_stream.c:150-161 | moves what is left to the front and loses none of it |
| RecordStream.RecordReader.GetNext | librilutils/record_stream.c:125-183 | delivers what the pure parse finds first, or leaves the stream as it was; refuses only a record over the limit; never asks for zero bytes; asks to be called again only after reading something, and reports the end only with nothing left to read |
| RecordRuns.DeliversIsParse | librilutils/record_stream.c:112-183 | delivered records framed again are what left the stream, and are the front of the parse |
| RecordRuns.Callback | libril/ril.cpp:2429-2450 | the receive loop drains every complete record, and stops only after reading something more, at the end of the stream, on a read error or at a record too long |
| RecordRuns.Run | librilutils/record_stream.c:125-183 | over any number of rounds encode(delivered) and the rest are the stream; all of the parse once all has been read; unless a record is refused, as many rounds as there are bytes and read outcomes, and one, read everything |
| RecordRuns.SendEach | libril/ril.cpp:1472-1539 | over responses sent one after another, whatever fails, the pure parse of what the client got is exactly the ones reported as sent; where no write fails these are the ones that are not too large |
| RecordRuns.EndToEnd | libril/ril.cpp:1472-1539 | payloads of at most 8192 bytes sent over partial writes and received over short or failing reads are recovered in order and never refused; all are sent unless a write fails, and then rounds enough for every byte and read outcome recover exactly all |
| ParcelFormat.PadIsMask | libril/parcel.cpp:32-39 | the padded size is the next multiple of four |
| ParcelFormat.IntegerLayout | libril/parcel.cpp:334-351 | an integer's four bytes in two's complement, the least significant first |
| ParcelFormat.RawLayout | libril/parcel.cpp:196-235 | bytes stand as they are, with zeros to the next multiple of four |
| ParcelFormat.StringLayout | libril/parcel.cpp:247-266 | a string is its length, its units with the low byte first, a zero unit and zeros to the next multiple of four; NULL is the length -1 |
| ParcelFormat.Int32RoundTrip | libril/parcel.cpp:237-361 | a stored int32 is read back, negative ones included |
| ParcelFormat.Int64RoundTrip | libril/parcel.cpp:237-361 | a stored int64 is read back |
| ParcelFormat.StringRoundTrip | libril/parcel.cpp:247-379 | a marshalled string or NULL is found again, with the position behind it |
| Parcels.Parcel.ContinueWrite | libril/parcel.cpp:449-497 | contents survive a reallocation; which failures set the error and which do not |
| Parcels.Parcel.GrowData | libril/parcel.cpp:396-413 | a success leaves room for the bytes asked for, so jumping back to the write without a check is sound |
| Parcels.Parcel.FinishWrite | libril/parcel.cpp:163-177 | the position moves, the size never shrinks |
| Parcels.Parcel.EnsureRoom | libril/parcel.cpp:196-235 | succeeds whenever there is room or growth is allowed and allocated, and keeps the amortised bound |
| Parcels.Parcel.WriteInplace | libril/parcel.cpp:196-235 | reserves exactly the padded length, with zero padding whatever memory held |
| Parcels.Parcel.Write | libril/parcel.cpp:179-194 | the padded bytes replace what stood at the position, all else stays; a refused growth is never a write, and is the one case in which success is reported without it |
| Parcels.WriteIsSilent | libril/parcel.cpp:179-194 | bytes that an empty parcel does not take although it reports success |
| Parcels.Parcel.WriteAligned | libril/parcel.cpp:334-351 | a word is written at the position, over old contents or behind them |
| Parcels.Parcel.WriteInt32 | libril/parcel.cpp:237-240 | the four bytes of a value |
| Parcels.Parcel.WriteInt64 | libril/parcel.cpp:242-245 | the eight bytes of a value |
| Parcels.Parcel.WriteString16 | libril/parcel.cpp:247-266 | a length word, the text and its terminator, padded; a single -1 for NULL; or nothing and an error; or the length word alone with mError, which without an earlier error means success, exactly when there is room for the word and not for the text |
| Parcels.WriteString16IsSilent | libril/parcel.cpp:247-266 | a text of which an empty parcel takes the length alone and reports success; no string is read back |
| Parcels.Parcel.RestartWrite | libril/parcel.cpp:415-447 | an emptied parcel with the capacity asked for, or the old one |
| Parcels.Parcel.SetData | libril/parcel.cpp:109-124 | the parcel becomes these bytes, read from the start |
| Parcels.Parcel.SetDataPosition | libril/parcel.cpp:84-93 | the position inside the data, contents kept |
| Parcels.Parcel.ReadInplace | libril/parcel.cpp:268-304 | the bytes at the position exactly when they and their padding are there, else nothing moves |
| Parcels.Parcel.ReadAligned | libril/parcel.cpp:306-321 | the word at the position exactly when it is there |
| Parcels.Parcel.ReadInt32 | libril/parcel.cpp:353-361 | the value, or zero without moving when the data ends |
| Parcels.Parcel.ReadString16 | libril/parcel.cpp:363-379 | the string at the position; a refused length word is consumed |
| ParcelRoundTrip.Aligned | libril/parcel.cpp:32-39 | every list of items keeps the cursor a multiple of four |
| ParcelRoundTrip.WriteItem | libril/parcel.cpp:179-266 | one item is appended whenever the size stays small and allocations succeed |
| ParcelRoundTrip.WriteAll | libril/parcel.cpp:179-266 | any list of items is appended in order; whatever fails, the bytes carried by reallocations stay within three times the size and the position stays at the end |
| ParcelRoundTrip.ReadItem | libril/parcel.cpp:268-379 | an item read as the type it was written is the same item |
| ParcelRoundTrip.ReadAll | libril/parcel.cpp:268-379 | all of them, in order |
| ParcelRoundTrip.RoundTrip | libril/parcel.cpp:84-379 | write any list to an empty parcel, rewind, read the same types: the same values, ending at the data size |
| StringMarshal.RestoredExactly | libril/ril.cpp:305-322 | writing and reading a string is the identity exactly on NULL and canonical text |
| StringMarshal.RestoredOnce | libril/ril.cpp:305-322 | it is idempotent on every C string, and its result is canonical |
| StringMarshal.WriteStringToParcel | libril/ril.cpp:315-322 | the widened string is marshalled, one too long to be copied is sent as NULL, and the behaviour is undefined exactly when the copy is written through NULL |
| StringMarshal.StrdupReadString | libril/ril.cpp:305-313 | the string at the position, narrowed; NULL only for a missing string or a failed allocation |
| StringMarshal.StringRoundTrip | libril/ril.cpp:305-322 | through a parcel a canonical string or NULL comes back as it was |
| StringMarshal.ResponseStrings | libril/ril.cpp:1588-1620 | refused exactly on a NULL with a length or a length that is no multiple of the pointer size; else a count and the strings |
| StringMarshal.ListHead | libril/ril.cpp:1588-1620 | a list begins with the number of its strings |
| IntMarshal.ResponseInts | libril/ril.cpp:1547-1576 | refused exactly on a NULL with a length or a length that is no multiple of an int; else a count and the integers that it covers |
| IntMarshal.SentWhole | libril/ril.cpp:1561-1571 | all integers of a list are sent if and only if a pointer has the size of an int or there are none; with pointers of eight bytes, half of them |
| IntMarshal.OneIntLost | libril/ril.cpp:1561-1571 | a single integer is sent with pointers of four bytes and not with those of eight |
| StringMarshal.DispatchStrings | libril/ril.cpp:464-532 | no command without a count, no array for a negative one, else `count` strings each read where the one before ended |
| StringMarshal.ListRoundTrip | libril/ril.cpp:464-532 | reading inverts writing for every list that is not NULL; NULL comes back as an empty list |
| StringMarshal.RestoredCanonical | libril/ril.cpp:1588-1620 | a list is unchanged exactly when its strings are NULL or canonical |
| Lines.SplitFirst | reference-ril/atchannel.c:299-392 | a newline run, a line and its terminator come off the reference splitting as one line |
| Lines.SplitIsPlain | reference-ril/atchannel.c:299-392 | every line has something in it, and neither CR nor LF |
| Lines.TerminatedSplit | reference-ril/atchannel.c:285-392 | lines ended by CR, LF or CR LF are found again, and an unfinished one behind them is not |
| Lines.TameSuffix | reference-ril/atchannel.c:299-392 | what follows a line of a tame stream is tame |
| LineReader.LineReader.FindNextEOL | reference-ril/atchannel.c:285-297 | the first newline of the buffer, or the end of the buffer just for the prompt, or none |
| LineReader.LineReader.MoveUp | reference-ril/atchannel.c:333-342 | the partial line moves to the front unchanged |
| LineReader.LineReader.ReadLine | reference-ril/atchannel.c:308-392 | the next line of the reference splitting; it drops its buffer only for an overlong line and meets the prompt only where one begins a line; it returns no line only after a read has failed or with nothing left to read |
| LineReader.NextOf | reference-ril/atchannel.c:308-392 | on a tame stream the next line of the reference splitting, or none, and then a read has failed or no line is left |
| LineReader.ReadAll | reference-ril/atchannel.c:410-448 | for every chunking the lines read are the reference splitting, all of it unless a read has failed |
| AtCommand.ProcessAllAnswers | reference-ril/atchannel.c:118-277 | whatever lines come, the response holds exactly the due ones in order of arrival once reversed, the latest final result, and the PDU goes out exactly when the prompt comes |
| AtCommand.StepAnswers | reference-ril/atchannel.c:220-277 | one more line keeps that |
| AtCommand.EachLineHasOneFate | reference-ril/atchannel.c:220-277 | a line becomes exactly one of final result, intermediate, prompt and unsolicited delivery, and changes nothing else |
| AtCommand.FateMeans | reference-ril/atchannel.c:220-277 | which of the four it becomes, told by the characters of the line, the type and prefix of the pending command, and whether it has a line and waits for the prompt |
| AtCommand.FinalResults | reference-ril/atchannel.c:133-180 | the final results by their first characters; none is both a success and an error |
| AtLines.ATResponse.Add | reference-ril/atchannel.c:118-131 | one new node at the head of the list |
| AtLines.ATResponse.ReverseIntermediates | reference-ril/atchannel.c:627-640 | the same nodes in reverse order, in place |
| AtLines.TurnAround | reference-ril/atchannel.c:627-640 | the loop leaves a well-formed list of the reversed nodes |
| AtLines.AtChannel.ProcessLine | reference-ril/atchannel.c:220-277 | the statics in memory change as the line function says |
| AtLines.AtChannel.Route | reference-ril/atchannel.c:237-272 | by the type of the command a line is intermediate or unsolicited, as the line function says |
| AtLines.AtChannel.HandBack | reference-ril/atchannel.c:690-706 | the response due goes to the caller, its lines turned around, and slot, prefix and PDU are clear |
| AtLines.AtChannel.Serve | reference-ril/atchannel.c:648-708 | a command gets the lines it is due in order of arrival and leaves slot, prefix and PDU clear |
| AtReader.FeedAnswers | reference-ril/atchannel.c:410-448 | whatever lines come, messages in two lines among them, the response is what the others make due |
| AtReader.MessageDelivered | reference-ril/atchannel.c:410-448 | a message in two lines anywhere in the stream goes to the handler, both lines, and changes nothing of a pending command |
| AtReader.SmsMeans | reference-ril/atchannel.c:186-203 | the messages in two lines are those that begin with +CMT:, +CDS: or +CBM: |
| AtReader.ReaderLoop | reference-ril/atchannel.c:410-448 | for every chunking of a tame stream the channel becomes what the lines of the reference splitting make of it, all of them unless a read has failed |
| AtReader.ServeStream | reference-ril/atchannel.c:410-706 | from the bytes of the modem to the response of a command: what it is due among all lines of the stream, unless a read has failed |
| AtProtocol.StepKeepsInv | reference-ril/atchannel.c:648-741 | every step of every thread keeps exclusion, slot, ownership, reports and results |
| AtProtocol.RunKeepsInv | reference-ril/atchannel.c:648-741 | every run keeps them |
| AtProtocol.EveryRunIsSafe | reference-ril/atchannel.c:535-741 | in every interleaving no command starts with the slot occupied and none reports a pending one; each response has one owner; finished calls have good results; slot, prefix and PDU are clear on return |
| AtProtocol.OkMeansOneLine | reference-ril/atchannel.c:762-823 | "ok" with a response means a final result of the class `success` says, and a successful one-line command has exactly one line |
| AtProtocol.KeptByWrap | reference-ril/atchannel.c:752-835 | the wrappers free a successful response without the line it must have and report it as invalid |
| AtProtocol.KeptByWake | reference-ril/atchannel.c:675-688 | a time-out clears the pending command, frees its response once and hands out none |
| AtProtocol.KeptByClosing | reference-ril/atchannel.c:394-593 | the reader's end and at_close keep everything |
| AtProtocol.CheckIsEnabled | reference-ril/atchannel.c:675-700 | a thread at the test of its wait loop always has a response to test |
| AtErrors.ReportsAreDue | reference-ril/atchannel.c:648-860 | over every run, what a finished call reports is a function of its last try: a closed channel exactly if it was closed when the try began, or the reader was gone when the call last looked for its response; else a generic error exactly if the write failed; else a time-out exactly if the wait timed out, of a timed call only; else a missing line exactly if it lacks one, and otherwise ok; an error only of the last try it has |
| AtErrors.CalmRunsSucceed | reference-ril/atchannel.c:648-835 | in a run where nothing closes the channel, fails to write or times out, every finished call has ok, or exactly if it lacks its line an invalid response |
| AtErrors.StepKeeps | reference-ril/atchannel.c:648-741 | each step keeps a call's report what its own steps make it, and the channel closed as the steps say |
| AtService.CallIsServed | reference-ril/atchannel.c:648-835 | whatever lines come, a final result among them, a call on an open channel can run to its end, and then has the response due among these lines, or the error of a missing line exactly if it lacks one |
| AtService.LinesArrive | reference-ril/atchannel.c:410-448 | any lines can reach the pending response one after another, and become what the line function makes of them |
| AtService.ClosingReleases | reference-ril/atchannel.c:675-706 | once the reader is gone a waiting call can go on, and has a closed channel to report |
| Timers.MacrosMeanArithmetic | libril/ril_event.cpp:37-66 | on normal values the macros are addition, subtraction and order, and stay normal |
| Timers.Earlier | libril/ril_event.cpp:161-317 | the place before the first deadline not earlier, which is also the number of timers that expire |
| Timers.InsertKeepsSorted | libril/ril_event.cpp:291-317 | inserting there keeps the order |
| Timers.ExpiredExactly | libril/ril_event.cpp:161-183 | the prefix that is taken is exactly the deadlines that have passed |
| EventList.InitList | libril/ril_event.cpp:108-114 | an empty circular list |
| EventList.AddToList | libril/ril_event.cpp:116-123 | the ring with the event before the given node, linked both ways |
| EventList.Event.Set | libril/ril_event.cpp:255-266 | the event is as new: off every list and out of the table |
| EventList.RemoveFromList | libril/ril_event.cpp:125-135 | the ring without the event, whose links are cleared |
| EventLoop.EventLists.constructor | libril/ril_event.cpp:244-252 | two empty, separate lists |
| EventLoop.EventLists.TimerAdd | libril/ril_event.cpp:291-317 | the event joins the list in order, due the delay after now, or nothing happens without a delay; both lists stay well-formed and disjoint |
| EventLoop.EventLists.ProcessTimeouts | libril/ril_event.cpp:161-183 | exactly the timers past their deadline move to the end of the pending list, in order |
| EventLoop.EventLists.CalcNextTimeout | libril/ril_event.cpp:218-241 | none without timers, else how long until the first, zero when due |
| WatchTable.Watches.RemoveWatch | libril/ril_event.cpp:137-159 | the slot and its descriptor go; the read set stays the table's descriptors and nfds one more than the largest |
| WatchTable.Watches.Add | libril/ril_event.cpp:269-288 | the first free slot, or nothing when the table is full; the same agreement |
| WatchTable.Watches.Del | libril/ril_event.cpp:320-334 | undoes an add; leaves an event without a slot alone |
| WatchTable.Watches.ProcessReadReadies | libril/ril_event.cpp:185-203 | the ready entries join the pending list in slot order, n at most, and the one-shot ones leave the table |
| WatchTable.Watches.ReadyAscends | libril/ril_event.cpp:185-203 | those are entries whose descriptor is ready, by ascending slot, each once |
| WatchTable.Watches.ReadyLeavesOut | libril/ril_event.cpp:185-203 | a ready one is left out only when n of slots before it were taken |
| WatchTable.Watches.CollectedClears | libril/ril_event.cpp:185-203 | exactly the one-shot entries among them are cleared |
| WatchTable.Watches.BudgetSpent | libril/ril_event.cpp:185-203 | stopping once n were found misses none |
| EventTurn.Loop.Watch | libril/ril.cpp:2509-2532 | an add from a callback takes the first free slot, or changes nothing, and keeps lists, table, read set and nfds in agreement |
| EventTurn.Loop.Unwatch | libril/ril.cpp:2465 | a deletion from a callback takes the event out of its slot and its descriptor out of the read set, changes nothing for an event in no slot, and leaves a pending event pending |
| EventTurn.Loop.Prepare | libril/ril_event.cpp:255-266 | an event on no list and in no slot is set up, any other left alone |
| EventTurn.Loop.FirePending | libril/ril_event.cpp:205-216 | every pending event is called once, in list order, whatever the callbacks add or delete; table, read set and settings are what the callbacks make of them one after another; old timers keep their deadlines, new ones are due no earlier than now, and there are as many as were added |
| EventTurn.Loop.HandleSelect | libril/ril_event.cpp:383-388 | after one return of select the callbacks called are the expired timers' by deadline and then the ready descriptors', each once; table, read set and settings are what these make, one after another, of the table without the ready one-shot entries; the other timers stay with their deadlines, besides as many new ones as were added; everything the next turn needs holds again |
| EventTurn.KeptUnlessDeleted | libril/ril_event.cpp:205-216 | whatever the callbacks of a turn do, an entry stays in its slot unless one of them deletes its event |
| EventTurn.Loop.UnnamedStays | libril/ril_event.cpp:205-216 | the entry of an event that no callback may name stays |
| EventTurn.TimersLeaveWatches | libril/ril_event.cpp:205-216 | callbacks that only add timers change nothing of the watches |
| EventTurn.AddThenDelete | libril/ril_event.cpp:269-334 | deleting a watch undoes adding it |
| EventTurn.AddIsMade | libril/ril_event.cpp:269-288 | an add made by a callback is in the first free slot with its descriptor watched, and all else as it was |
| EventTurn.DeleteIsMade | libril/ril_event.cpp:320-334 | a deletion made by a callback clears its slot and its descriptor, and nothing else |
| EventTurn.SetUpIsMade | libril/ril_event.cpp:255-266 | a callback's setting up gives an event its descriptor and kind, and leaves the table alone |
| EventTurn.FireAppend | libril/ril_event.cpp:205-216 | calling one list after another is calling both: no callback is skipped |
| EventLoop.EventLists.RequestTimed | libril/ril.cpp:2966-2992 | a new event joins the timers at its place, due the delay after the time it was added |
| EventRuns.EnlistIsInsert | libril/ril_event.cpp:291-317 | the list of the runs is the list in memory |
| EventRuns.StepKeepsInv | libril/ril_event.cpp:161-389 | every step of the loop and of adding threads keeps order, conservation and coverage |
| EventRuns.NoLostWakeup | libril/ril.cpp:2252-2262 | while the loop is in select a listed timer is due no earlier than the wake time, or the pipe is readable, or its adder has not written; once it has, a due timer makes select return |
| EventRuns.FiringOrder | libril/ril_event.cpp:161-216 | in every run timers fire in order of deadline, once each, and only after it |
| EventRuns.PassTakesDue | libril/ril_event.cpp:161-183 | a pass takes exactly the listed timers whose deadline is past, and leaves the others listed |
| EventRuns.DueTimersFire | libril/ril_event.cpp:161-389 | in every run, once the loop is back at its top after a pass, every timer that was due at the pass has fired |
| EventRuns.TurnFires | libril/ril_event.cpp:336-389 | once select returns the loop can always finish its turn: back at its top it has fired exactly the timers that were due, in order, and the wakeup pipe is empty |
| EventMemory.Expire | libril/ril_event.cpp:161-183 | processTimeouts does to the lists in memory what the pass does to those of the run |
| EventMemory.Fire | libril/ril_event.cpp:205-216 | taking the first pending event off and calling it is the run's firing |
| EventMemory.Request | libril/ril.cpp:2966-2992 | internalRequestTimedCallback is the run's insertion, from another thread and from a callback |
| EventMemory.Calc | libril/ril_event.cpp:218-241 | calcNextTimeout gives the time that the run's step goes to sleep for |
| Requests.PendingRequests.Push | libril/ril.cpp:403-410 | the request heads the list |
| Requests.PendingRequests.CheckAndDequeue | libril/ril.cpp:2667-2690 | found exactly when pending, and taken off alone |
| Requests.PendingRequests.CancelAll | libril/ril.cpp:2408-2427 | every pending request is cancelled |
| Requests.WithoutMembers | libril/ril.cpp:2667-2690 | taking a request off leaves exactly the others |
| Requests.BuildResponse | libril/ril.cpp:2716-2738 | the three words and the payload; an error of the response function replaces the third word and leaves the payload written so far |
| Requests.ResponseIsItems | libril/ril.cpp:2716-2738 | a reader of items gets those words and that payload |
| Requests.ResponseWords | libril/ril.cpp:2716-2738 | a client finds 0, the token it sent and the result, or the error of the response function, in the first three words, and the payload behind them |
| Requests.RefusedOrSelected | libril/ril.cpp:350-401 | a request code passes the first tests exactly when the second cascade finds its table, inside its bounds |
| Requests.SelectedIsFor | libril/ril.cpp:350-401 | in tables that pass the self-check of RIL_register (libril/ril.cpp:2638-2651) the entry that a code selects is the one for this request, and a code is refused exactly when there is none |
| Requests.Server.OnRequestComplete | libril/ril.cpp:2692-2750 | one completion: off the list, and its response sent only if it was pending, not cancelled and not local; on a descriptor where no write fails, whole exactly if a record can hold it |
| Requests.Server.CompleteAgain | libril/ril.cpp:2692-2750 | completing what is not pending changes nothing |
| Requests.Server.DispatchVoiceRadioTech | libril/ril.cpp:1217-1240 | one completion on every path, although two calls are made with the radio off or unavailable; with a SIM the technology is 3, with a RUIM or its NV 6 |
| Requests.TechItems | libril/ril.cpp:1234-1239 | the client is sent one integer, the technology; with pointers of eight bytes none |
| Requests.Server.RequestEnableModem | reference-ril/at_modem.c:394-422 | one completion on every path; the failure wins over the success reported after it |
| Requests.Server.LateCompletion | libril/ril.cpp:2457-2535 | a request of a client that has gone, completed after the next one has come, sends the new client nothing |
| Requests.Server.HandStrings | libril/ril.cpp:464-532 | a request is handed on exactly when its count is there and there is memory for the array; otherwise it stays on the list and nothing is sent |
| Requests.Server.HandString | libril/ril.cpp:436-462 | the same for one string that must be there and be copied |
| Requests.Server.HandNothing | libril/ril.cpp:422-532 | a record of its two words alone is such a request: never handed on, still pending, nothing sent |
| Requests.TwoWordsAlone | libril/ril.cpp:331-347 | it is a command, with no count and no string behind the words |
| Requests.Server.CloseCommands | libril/ril.cpp:2457-2472 | no request of the closed connection can be answered any more |
| Requests.Server.ProcessCommandBuffer | libril/ril.cpp:331-420 | which records are no command, for lack of words or of memory for a copy, which codes are answered without being entered, which requests are entered, with the table entry made for them, and which of those are answered at once; the answers go out whole where no write fails |
| RequestRuns.StepKeepsInv | libril/ril.cpp:331-420 | every accept, completion, connect and disconnect keeps the list exact and the answers good |
| RequestRuns.Lifecycle | libril/ril.cpp:2667-2750 | over every run at most one answer per request, only after completion, only on its own connection; pending is accepted less completed |
| RequestRuns.AnsweredExactly | libril/ril.cpp:331-2750 | over every run, each request is answered if and only if its own steps say so: it came in, and its first completion went out before the connection that it came in on was closed; it is answered on that connection, and pending exactly until that completion |
| RequestRuns.RequestIsAnswered | libril/ril.cpp:2692-2750 | a request that comes in and is completed while its client is there is listed, answered on its connection, and off the list again |
| RequestRuns.NeverOnALaterConnection | libril/ril.cpp:2408-2427 | a request pending at a disconnect is never answered in any continuation |
| RequestRuns.NeverCompletedNeverAnswered | libril/ril.cpp:422-426 | a request that nothing completes stays on the list in every run and is never answered |
| RequestRuns.CompletedTwice | libril/ril.cpp:1217-1240 | a second completion is the identity |
| RequestRuns.CompletionAnswers | libril/ril.cpp:2692-2750 | a pending request of the present client is answered on its connection |
| RequestRuns.WithoutIsWithout | libril/ril.cpp:2667-2690 | the list in memory and the list of the runs lose the same request |
| AtTok.Cursor.Start | reference-ril/at_tok.c:28-46 | past the first colon, or no text at all |
| AtTok.Cursor.SkipWhiteSpace | reference-ril/at_tok.c:48-56 | past leading white space |
| AtTok.Cursor.SkipNextComma | reference-ril/at_tok.c:58-70 | past the first comma, or at the end |
| AtTok.Cursor.NextTok | reference-ril/at_tok.c:72-89 | the token ends in the line and nothing before it is touched |
| AtTok.Cursor.NextIntBase | reference-ril/at_tok.c:98-127 | the token's number as an int; the cursor moves past a token that is none |
| AtTok.Cursor.NextStr | reference-ril/at_tok.c:174-183 | the next token, failing only without text |
| AtTok.Cursor.HasMore | reference-ril/at_tok.c:186-189 | whether any character is left |
| AtTok.Cursor.NextStrs | reference-ril/at_tok.c:174-183 | all tokens of repeated calls stand in the line at once, none damaged by a later call |
| AtTok.Cursor.ReadFields | reference-ril/at_tok.c:28-183 | tokenising a printed line gives the texts of its fields, quoted or not |
| AtTok.PrintedTokens | reference-ril/at_tok.c:72-183 | the same of the text |
| AtTok.MoreExactly | reference-ril/at_tok.c:186-189 | with fields to come there is more, except before a single empty one |
| AtTok.DenotesToInt | reference-ril/at_tok.c:98-127 | any text of a decimal or hexadecimal number, with leading zeros, capitals, a sign or 0x or without, is read as that number as an int; beyond the range of long as its largest or smallest value, unsigned as all ones |
| AtTok.NumeralDenotes | reference-ril/at_tok.c:98-127 | every number has such a text: its digits in positional notation |
| AtTok.BlanksBefore | reference-ril/at_tok.c:48-127 | behind any blanks, tabs, line feeds, vertical tabs, form feeds and carriage returns a number is the token |
| Registration.Network.ParseRegistrationState | reference-ril/at_network.c:1356-1537 | succeeds exactly when there is a prefix, at most four commas and a number in every field; the items reported are the allocation's size |
| Registration.Network.ParsePrinted | reference-ril/at_network.c:1356-1537 | the stat, lac, cid and network type that a printed form of one to five fields reports, with the field each stands in written out, are recovered from it, however its numbers are written and with white space before them, quotes around them or without |
| Registration.Network.ParseBlank | reference-ril/at_network.c:1356-1537 | +CREG: 2,1 with its blank gives stat 1 and nothing else |
| Registration.PaddedCapitals | reference-ril/at_network.c:1356-1537 | a zero-padded lac in capitals is one of those forms |
| Registration.PrintedCommas | reference-ril/at_network.c:1393-1398 | a printed form has one comma less than fields |
| Operators.ParseRows | reference-ril/at_network.c:547-617 | the rows up to the first that breaks off or has a bad code; the valid count kept by subtraction is right |
| Operators.DropRepeated | reference-ril/at_network.c:610-616 | a row is marked exactly when its code came before |
| Operators.Compact | reference-ril/at_network.c:619-634 | the table of first occurrences, and NULLs behind it |
| Operators.StatMeans | reference-ril/at_network.c:560-609 | a state written 0, or nothing, is unknown, 1 available, 2 current, 3 forbidden, and a larger number has no name |
| Operators.TableColumns | reference-ril/at_network.c:560-634 | the four columns of a row of the table: long name, short name, code, state |
| Operators.KeptFirsts | reference-ril/at_network.c:610-634 | what is kept is exactly the first occurrence of each code, in order |
| Operators.KeptCodes | reference-ril/at_network.c:610-634 | no code is kept twice and none is lost |
| Operators.QueryAvailableNetworks | reference-ril/at_network.c:526-634 | for every answer: no list on a bad code, else the first occurrences and as many NULL rows as closing parentheses without a row |
| Operators.SeesUnique | reference-ril/at_network.c:547-609 | an answer determines the rows the loop reads and where it ends |
| Operators.QueryPrinted | reference-ril/at_network.c:526-634 | for every well-formed list exactly the first occurrence of each code, with nothing behind it |
| Operators.QuotedCodeFails | reference-ril/at_network.c:604-609 | a quoted code of five or six digits fails the query |

## Left out

- Sockets, pipes, the serial line, `select`, clocks and logging: `read` and `write` take their outcomes from the schedules of `Descriptors.dfy`, which are arbitrary; the end of a stream is read only when nothing is left of it. The clock never goes back. A `read` retried on EINTR is part of the primitive.
- LineReader.ReadAll: streams with an overlong line, whose buffer is dropped, or with a line that begins with the prompt, are outside it, since there the result depends on the chunks; AtReader.ReaderLoop and AtReader.ServeStream have the same condition.
- LineReader.LineReader.ReadLine: after the prompt "> " the source leaves its cursor past the terminator, so its exactness is stated only where no line begins with the prompt; the out-parameters `prompt` and `dropped` say when it does not apply.
- RecordStream.RecordReader.GetNextRecord: positions are unbounded numbers, so the source's pointer arithmetic cannot wrap.
- AtProtocol.EveryRunIsSafe: one session, opened and not reopened; the reader may process further lines after a final result, as in the source; a call from the reader thread is refused before the model begins; `isInEmulator` is the constant it is in the source, so the handshake always takes the write mutex. AtService.CallIsServed gives a schedule that serves a call; that every fair one does is not stated.
- AtLines.AtChannel.Serve: time-outs, a closed channel and a failed command write are in AtProtocol only.
- AtLines.AtChannel.ProcessLine: a PDU counts as written once the write is attempted, since the source ignores the outcome.
- EventRuns.FiringOrder: delays are whole microseconds that are not negative, events are fresh, and the unlocked read of the first timer in `calcNextTimeout` is one atomic step.
- EventTurn.Loop.HandleSelect: a callback adds only an event that is on no list and whose descriptor is open and unwatched, sets up only one that is on no list and in no slot, and deletes only one that is in its slot or in none; other calls, which no callback of the source makes, are passed over.
- WatchTable.Watches.Add: a descriptor that is already watched is outside it.
- EventLoop.EventLists.TimerAdd: delays that are negative or have too many microseconds are outside it.
- Requests.Server.OnRequestComplete: one atomic step on requests with unique identities; reuse of a freed address, and completions that race for one request, are not modelled. Its allocations succeed. After a write error the source keeps the number of the closed descriptor; here that descriptor stays closed, so a file opened later under the same number is not modelled.
- Requests.BuildResponse: its allocations succeed and the payload is within the sizes a parcel can grow to.
- RequestRuns.Lifecycle: a response counts as an answer when its whole record went out; requests are never local, as in the source, where only the test for it exists.
- StringMarshal.ListRoundTrip: allocations succeed and `malloc(0)` is not NULL; lists are within the sizes a parcel can grow to.
- Codec.Strdup8to16: `size_t` is at least 32 bits wide; its width is a parameter.
- Codec.Strlen8to16: its two counters are unbounded.
- Parcels.Parcel.SetDataPosition: positions beyond the data are outside it.
- ParcelFormat.Int32RoundTrip: the host is little-endian.
- AtTok.Cursor.NextIntBase: `strtol` and `strtoul` are a function of the token, with the width of `long` as a parameter.
- Operators.ParseRows: fields fit their 30-byte slots, as for the whole query.
- Operators.QueryAvailableNetworks: delimiters are cut points of an immutable text instead of NULs written over it; fields fit their 30-byte slots, as the source needs for `strcpy` to be defined; allocations succeed.
- `strcpylen8to16`, which cannot step over an embedded NUL and has no termination measure.
- `Parcel::appendFrom`.
- The marshallers of other structures, the request handlers that only format a command and read one field, the PDP slot array, wake locks and the string tables: easy members next to these.
