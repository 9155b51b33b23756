# SpareNode: verified model of the core protocols

SpareNode is a bounded HTTP/1.1 file server. This Dafny 4.11 project models the parts of it whose
correctness rests on hand-written state rather than on the operating system, and proves what those
parts promise for every input, every run and every interleaving.

`dafny verify dfyconfig.toml` checks the whole project.

## How the system is modelled

* **Native calls** (sockets, files, clocks, randomness, hashing) are parameters: scripts or functions
  that say how each call ends, including short reads, short writes, interruptions and failures.
* **Mutex-protected regions are atomic steps.** The dispatcher, the isolated file writer and the
  resource coordinator are transition systems; theorems speak of every legal sequence of actions.
  The classes of the dispatcher, the worker slots, the mailbox and the coordinator's registry carry the
  program's own fields and loops, and their contracts name the protocol step each method takes. The
  writer on top of the mailbox takes the fate of an operation (refused, awaited, given up) from its
  environment; that these are exactly the fates along protocol runs, with no giving up for a call that has
  neither a deadline nor a stop token, is `FileWriter.WriteFatesAreExact` (for completions
  `FileWriter.CompletionFatesAreExact`).
* **Loops stay loops.** Each imperative routine is a method proved against a specification function
  or against the property itself; the theorems are lemmas about that function.
* HTTP text is `string`, one character a byte. The UTF-8, lexer and credential modules work on bytes.
  Integers are unbounded; offsets that the program guards against overflow are guarded explicitly.

| files | component |
|---|---|
| `DispatcherProtocol`, `Dispatcher`, `RingBuffer`, `TcpConnection` | connection dispatcher, admission and replay |
| `ChunkGrammar`, `ExtensionGrammar`, `Numerals`, `BodyDecoderSpec`, `BodyDecoder`, `ChunkedMessage`, `ChunkedAcceptance` | chunked body decoder |
| `RequestHead`, `PrintedHead`, `HeadAcceptance`, `HeadRejections`, `Request` | request parser |
| `FileWriterProtocol`, `FileWriter`, `TemporaryFile`, `UploadFinalizer` | isolated writer and upload publication |
| `Coordinator` | hierarchical resource locks |
| `SessionStore`, `RateLimiter` | sessions and login throttling |
| `Utf8`, `ConfigLexer`, `LexerGrammar`, `Credentials` | text codecs and the credential file |
| `Router`, `ResponseHead`, `ResponseFields`, `ResponseWriter` | routing and responses |

## Where a promise fails

* **Login throttling.** The promise that more failures than allowed span a cooldown breaks at the last
  instant of the clock, under every policy (`RateLimiter.HammeringBreaks`). It is kept by all runs up to
  an instant if and only if the clock goes on after it (`RateLimiter.PromiseHoldsExactly`); window by
  window, `RateLimiter.FailureWindow` gives the exact condition.
* **Credential file.** The provisioner accepts logins that are not UTF-8 text or contain U+FEFF. The file
  it writes then cannot be loaded (`Credentials.UnloadableLogin`). `Credentials.FileRoundTrip` gives the
  exact condition under which printing and loading are inverse.
* **Replay through admission.** Under every configuration with admission, a connection that still has
  bytes to replay when it is submitted can lose them, because promotion replaces them
  (`DispatcherProtocol.ReplayIsLost`). After any run, a handler has the whole stream of the submitted
  connection if and only if there is no admission or nothing was left to replay
  (`DispatcherProtocol.HandedStreamExactly`).
* **Failed isolated writes.** A writer call that fails because its caller stopped waiting may still have
  appended bytes (`FileWriter.AbandonedCounts`, `FileWriter.AbandonedBytesStay`), and so may a call of
  several pieces that waits without limit, when a later piece gets no worker slot
  (`FileWriter.OnlyFirstCounts`). That a failed call counts nothing is certain before the call if and only if
  the writer is complete, the payload is empty, the file's handle is closed, the caller's deadline or stop
  request has come already, or the call has neither deadline nor stop token and either there is no I/O thread
  or the payload is at most 16 KiB (`FileWriter.FailureCountsNothing`). In the same way, a failed completion
  may have completed the file exactly when the handle is open and the wait can be given up
  (`FileWriter.FailureCompletesNothing`).
* **Session clock readings** are taken before the lock. As the next call sees it, a reading out of lock order
  costs a session time if and only if it is earlier than the latest activity and the idle time counted from
  it ends before the absolute lifetime (`SessionStore.EarlyReadingCosts`). The early reading is also the
  activity that eviction compares: over everything that may follow, it can cost the session if and only if it
  is earlier than the latest activity and, besides, the store has room for more than one session or that
  idle time ends before the absolute lifetime (`SessionStore.EarlyReadingCanCost`).

## Model

| member | source | states |
|---|---|---|
| `DispatcherProtocol.StepInv` | src/network/connection_dispatcher.cpp:120-265 | every action (submit, drain, receive, promote, finish promotion, dequeue, stop, exit) keeps the global invariant: exact counter, FIFO order, single custody with an intact stream, marker-free short prefixes |
| `DispatcherProtocol.RunInv` | src/network/connection_dispatcher.cpp:120-487 | the invariant holds after every legal sequence of actions |
| `DispatcherProtocol.OwnedCountIsExact` | src/network/connection_dispatcher.cpp:132-158 | in every reachable state before shutdown the one counter is the sum of all stages, at most the capacity, and a drain finds a slot for every accepted connection |
| `DispatcherProtocol.EveryConnectionInOnePlace` | src/network/connection_dispatcher.cpp:206-265 | each submitted connection is in exactly one place, with exactly the byte stream it is served with |
| `DispatcherProtocol.HandlerSeesWholeStream` | src/network/connection_dispatcher.cpp:312-332 | what a handler is handed can still receive all the connection is served with: nothing lost, repeated or reordered |
| `DispatcherProtocol.HandedStreamExactly` | src/network/connection_dispatcher.cpp:319-320 | after any run, a handed connection has the whole stream it was submitted with exactly when there is no admission or no bytes were left to replay |
| `DispatcherProtocol.ReplayIsLost` | src/network/connection_dispatcher.cpp:319-320 | with admission, submit, drain, promote and dequeue hand out any connection with bytes left to replay without them |
| `DispatcherProtocol.AdmissionHoldsBack` | src/network/connection_dispatcher.cpp:351-430 | slow clients take no worker: along every run a connection reaches the ready queue only with a full prefix, with a prefix that holds the marker, or after end of input, an error, a timeout that had really passed or a poller failure |
| `DispatcherProtocol.ReceiveDecides` | src/network/connection_dispatcher.cpp:351-394 | after new bytes a slot keeps waiting exactly when its prefix is neither full nor holds the marker; end of input and errors promote it, would-block changes nothing, other slots are untouched |
| `DispatcherProtocol.WaitingClocks` | src/network/connection_dispatcher.cpp:234-265 | in every reachable state the total timeout counts from acceptance and the idle timeout from the latest received bytes |
| `DispatcherProtocol.DeadlineIsExact` | src/network/connection_dispatcher.cpp:397-411 | an entry is expired exactly from the earlier of its two timeouts on |
| `DispatcherProtocol.DrainPlacesAll` | src/network/connection_dispatcher.cpp:234-265 | a drain gives every accepted connection a slot with an empty prefix and its clocks, and moves nobody else |
| `DispatcherProtocol.LogsGrow` | src/network/connection_dispatcher.cpp:120-265 | no step takes back or reorders what was submitted, queued, handed out or closed |
| `DispatcherProtocol.HandedInSubmissionOrder` | src/network/connection_dispatcher.cpp:120-158 | without admission, handlers receive connections in the order of submission |
| `DispatcherProtocol.HandedInReadyOrder` | src/network/connection_dispatcher.cpp:206-230 | connections are dequeued in the order in which they became ready |
| `DispatcherProtocol.ShutdownAccountsForAll` | src/network/connection_dispatcher.cpp:161-194 | after shutdown every submitted connection went to exactly one handler or was closed, never both |
| `DispatcherProtocol.StopIsFinal` | src/network/connection_dispatcher.cpp:470-487 | no dequeue or submission can follow a stop, and the counters stay zero |
| `DispatcherProtocol.DrainKeeps` | src/network/connection_dispatcher.cpp:234-265 | draining all accepted connections succeeds, keeps the counter and every connection's stream |
| `RingBuffer.Push` | src/network/connection_dispatcher.cpp:206-212 | the tail slot is vacant, so enqueueing overwrites nothing and appends to the window |
| `RingBuffer.Pop` | src/network/connection_dispatcher.cpp:215-230 | the head slot holds the oldest element and dequeueing leaves the rest of the window |
| `Dispatcher.Impl.constructor` | src/network/connection_dispatcher.cpp:577-622 | a new dispatcher is the protocol's start state |
| `Dispatcher.Impl.EnqueueReady` | src/network/connection_dispatcher.cpp:206-212 | appends to the ready ring without reaching the terminate branch |
| `Dispatcher.Impl.Submit` | src/network/connection_dispatcher.cpp:120-158 | submitting any connection not submitted before is the protocol's submit step, or an error that changes nothing |
| `Dispatcher.Impl.Dequeue` | src/network/connection_dispatcher.cpp:215-230 | hands out the oldest ready connection as one protocol step |
| `Dispatcher.Impl.DrainAccepted` | src/network/connection_dispatcher.cpp:234-265 | moves all accepted connections into vacant slots, or reports shutdown and changes nothing |
| `Dispatcher.Impl.Promote` | src/network/connection_dispatcher.cpp:312-322 | one round after a poller failure: the slot leaves with its prefix attached for replay, whatever it holds |
| `Dispatcher.Impl.PromoteIfExpired` | src/network/connection_dispatcher.cpp:397-411 | a slot is promoted for a timeout exactly when its deadline has passed |
| `Dispatcher.Impl.NextAdmissionDeadline` | src/network/connection_dispatcher.cpp:268-285 | the poller wakes up at the first instant at which some waiting connection is expired, or never |
| `Dispatcher.Impl.FinishPromotion` | src/network/connection_dispatcher.cpp:323-331 | the second half, under the mutex: the connection reaches the ready ring, or is closed when shutdown came first |
| `Dispatcher.Impl.InspectAdmission` | src/network/connection_dispatcher.cpp:351-394 | one receive, repeated while interrupted, is the protocol's receive step with the overlap search in place of a full one |
| `Dispatcher.Impl.RequestStop` | src/network/connection_dispatcher.cpp:161-194 | shutdown empties both rings and the counters as one protocol step; a second call does nothing |
| `Dispatcher.Impl.ExitAdmission` | src/network/connection_dispatcher.cpp:441-466 | leaving the admission thread closes every slot |
| `Dispatcher.IncrementalSearchAgrees` | src/network/connection_dispatcher.cpp:338-348 | searching the new bytes and the overlap finds a marker exactly when the whole prefix contains one |
| `TcpConnection.Connection.ReceiveWithOptions` | src/network/tcp_connection.cpp:76-113 | a call returns as many of the bytes kept for replay as fit, or what the socket delivers when none are left, always the next pending bytes; or it refuses and takes nothing |
| `TcpConnection.RefusalsExactly` | src/network/tcp_connection.cpp:76-97 | exactly when a call is refused, and for which reason |
| `TcpConnection.ReplayKeepsStream` | src/network/tcp_connection.cpp:98-112 | for any calls and buffers, bytes returned plus bytes pending are the stream the handler started with |
| `TcpConnection.EndToEndStream` | src/network/tcp_connection.cpp:98-112 | from any reachable dispatcher, what a handler has read followed by what is pending is all the connection is served with |
| `ChunkGrammar.TakeQuoted` | src/http/request/http_body_decoder.cpp:33-59 | the scanning loop consumes exactly one quoted string with escapes, or reports none |
| `ChunkGrammar.TakeToken` | src/http/request/http_body_decoder.cpp:24-30 | consumes the longest token and reports whether there was one |
| `ChunkGrammar.CheckExtensions` | src/http/request/http_body_decoder.cpp:62-91 | accepts exactly the extension grammar |
| `ChunkGrammar.ExtensionsAreOneLine` | src/http/request/http_body_decoder.cpp:62-91 | valid extensions contain no line-ending byte |
| `ChunkGrammar.TrailerIsOneLine` | src/http/request/http_body_decoder.cpp:94-117 | a valid trailer field contains no line-ending byte |
| `ChunkGrammar.SizeSplits` | src/http/request/http_body_decoder.cpp:162-197 | a size line splits uniquely into digits and extensions |
| `ExtensionGrammar.ExtensionsExactly` | src/http/request/http_body_decoder.cpp:33-91 | the decoder accepts exactly the texts of extensions with a token name and an optional token or quoted value, with blanks in the permitted places |
| `ExtensionGrammar.TrailersExactly` | src/http/request/http_body_decoder.cpp:94-117 | the decoder accepts exactly the fields with a token name that is not about framing, routing, credentials or content |
| `Numerals.ReadsExactly` | src/http/request/http_body_decoder.cpp:176-187 | a text reads as a number exactly when it writes that number, in either case and with any leading zeros, in base ten and sixteen |
| `HttpSyntax.TokenCharsExactly` | include/sparenode/http/detail/ascii.hpp:56-67 | token characters are the visible ASCII characters that are not delimiters |
| `HttpSyntax.FieldValueBytesExactly` | include/sparenode/http/detail/ascii.hpp:70-75 | field values may hold everything but control characters other than the tab |
| `HttpSyntax.LowerExactly` | include/sparenode/http/detail/ascii.hpp:11-15 | only the 26 letters have two cases |
| `BodyDecoderSpec.RunConcat` | src/http/request/http_body_decoder.cpp:277-311 | decoding a concatenation is decoding one part after the other, states and output |
| `BodyDecoderSpec.StepBudgeted` | src/http/request/http_body_decoder.cpp:200-274 | every byte keeps all budgets and the offset equation |
| `BodyDecoderSpec.BudgetsHold` | src/http/request/http_body_decoder.cpp:122-132 | on every input, while nothing failed: offset is head plus decoded plus metadata bytes, and body, metadata, line, trailer-byte and trailer-count budgets hold |
| `BodyDecoderSpec.SplitInvariance` | src/http/request/http_body_decoder.cpp:277-311 | any split into calls and any output buffers give the one-shot output, consumed count, completion, failure code and failure offset |
| `BodyDecoderSpec.FailureIsSticky` | src/http/request/http_body_decoder.cpp:277-311 | after a failure every later call repeats it |
| `BodyDecoderSpec.SessionOffset` | src/http/request/http_body_decoder.cpp:277-311 | over a session the offset advances by exactly the consumed bytes |
| `BodyDecoderSpec.FailuresExactly` | src/http/request/http_body_decoder.cpp:162-253 | for each failure code, exactly the bytes and budgets that cause it, reported at the offset of the offending byte |
| `BodyDecoderSpec.LimitsExactly` | src/http/request/http_body_decoder.cpp:122-159 | what fails at once, at end of input and at the end of the address space |
| `BodyDecoder.HttpBodyDecoder.constructor` | src/http/request/http_body_decoder.cpp:122-132 | a new decoder is the specification's start state, including the oversized fixed length |
| `BodyDecoder.HttpBodyDecoder.Finish` | src/http/request/http_body_decoder.cpp:147-159 | only a complete decoder accepts end of input; otherwise the failure is recorded |
| `BodyDecoder.HttpBodyDecoder.FinishLine` | src/http/request/http_body_decoder.cpp:162-197 | applies a complete size or trailer line as specified |
| `BodyDecoder.HttpBodyDecoder.Metadata` | src/http/request/http_body_decoder.cpp:200-253 | one framing byte, charged to the budgets as specified |
| `BodyDecoder.HttpBodyDecoder.CopyData` | src/http/request/http_body_decoder.cpp:256-274 | a block of payload is that many single-byte steps |
| `BodyDecoder.HttpBodyDecoder.Feed` | src/http/request/http_body_decoder.cpp:277-311 | one call decodes a prefix of its input as the one-shot decoder would and stops only at completion, a full buffer or the one-shot failure |
| `ChunkedMessage.DecodesMessage` | src/http/request/http_body_decoder.cpp:277-311 | every acceptable message, with extensions and trailers, followed by any bytes, decodes to its body and consumes exactly its wire form |
| `ChunkedMessage.ProperPrefixIsIncomplete` | src/http/request/http_body_decoder.cpp:147-159 | no proper prefix completes or fails, and end of input there is rejected at its offset |
| `ChunkedMessage.EncodingDecodes` | src/http/request/http_body_decoder.cpp:277-311 | any body cut into any nonempty chunks, their sizes written in hexadecimal in any case with any leading zeros, encoded within the limits, decodes to that body and leaves later bytes untouched |
| `ChunkedMessage.SizeIsWritten` | src/http/request/http_body_decoder.cpp:176-187 | a size field stands for a number exactly when it writes it in hexadecimal |
| `ChunkedMessage.LineRun` | src/http/request/http_body_decoder.cpp:162-253 | a whole line fed byte by byte acts as if it had arrived at once |
| `ChunkedAcceptance.CompletionIsMessage` | src/http/request/http_body_decoder.cpp:162-311 | whatever completes the decoder starts with an acceptable message, whose body is the output |
| `ChunkedAcceptance.AcceptsExactlyMessages` | src/http/request/http_body_decoder.cpp:162-311 | the decoder completes exactly on inputs that start with an acceptable message |
| `RequestHead.FindRequestLineEnd` | src/http/request/http_request_parser.cpp:69-102 | the scanning loop is the specified scan, with its limit and line-ending errors |
| `RequestHead.FindHeaderLineEnd` | src/http/request/http_request_parser.cpp:110-147 | likewise for header lines and the shared header budget |
| `RequestHead.ParseHeaderSection` | src/http/request/http_request_parser.cpp:391-441 | the header loop is the specified fold over lines |
| `RequestHead.ParseHttpRequestHead` | src/http/request/http_request_parser.cpp:448-500 | the parser is the specified meaning of a head |
| `RequestHead.HeadIsPrefixStable` | src/http/request/http_request_parser.cpp:391-500 | once a prefix gives a head or an error, every extension gives the same |
| `RequestHead.HeadEndsAtFirstMarker` | src/http/request/http_request_parser.cpp:391-500 | a head ends exactly with the first CRLFCRLF and within the combined limit |
| `RequestHead.MarkerDecidesHead` | src/http/request/http_request_parser.cpp:69-147 | input that contains CRLFCRLF is never reported incomplete |
| `RequestHead.IncompleteHeadKeepsWaiting` | src/http/transport/http_connection_handler.cpp:583-590 | what the parser calls incomplete has no marker and fits the admission buffer of every dispatcher that can start; limits whose sum overflows give no buffer and no such dispatcher |
| `RequestHead.HeadIsUnambiguous` | src/http/request/http_request_parser.cpp:302-386 | an accepted head has one Host and at most one way to know its body length |
| `RequestHead.LengthIsWritten` | src/http/request/http_request_parser.cpp:196-212 | a Content-Length announces exactly the decimal number it writes, up to the machine word |
| `HeadRejections.RequestLineExactly` | src/http/request/http_request_parser.cpp:69-102 | where a request line ends, when it is too long, incomplete or badly ended, from its first line-ending byte alone |
| `HeadRejections.HeaderLineExactly` | src/http/request/http_request_parser.cpp:110-147 | the same for header lines and their shared budget |
| `HeadRejections.MethodsExactly` | src/http/request/http_request_parser.cpp:153-190 | exactly which methods are accepted, unsupported, invalid or malformed |
| `HeadRejections.VersionsExactly` | src/http/request/http_request_parser.cpp:219-255 | HTTP/1.1 to HTTP/1.9 are accepted; other versions are unsupported or malformed |
| `HeadRejections.LineOfThree` | src/http/request/http_request_parser.cpp:219-255 | the first wrong part of a request line is what it is rejected for, at its offset |
| `HeadRejections.OtherLines` | src/http/request/http_request_parser.cpp:219-255 | a request line with another number of blanks is malformed, at a known offset |
| `HeadRejections.FieldPositions` | src/http/request/http_request_parser.cpp:262-294 | a field is read with the positions of its line and of its value |
| `HeadRejections.NameErrors` | src/http/request/http_request_parser.cpp:262-294 | exactly which lines are folded or lack a name |
| `HeadRejections.ValueErrors` | src/http/request/http_request_parser.cpp:262-294 | exactly which values are rejected, where, and what the others are read as |
| `HeadRejections.HostExactly` | src/http/request/http_request_parser.cpp:302-357 | what a Host field does: recorded once, rejected when repeated, empty or invalid |
| `HeadRejections.LengthExactly` | src/http/request/http_request_parser.cpp:302-357 | what a Content-Length does: recorded once with the number it writes, rejected when repeated, no number or over a limit |
| `HeadRejections.CodingExactly` | src/http/request/http_request_parser.cpp:302-357 | what a Transfer-Encoding does: recorded once |
| `HeadRejections.SectionExactly` | src/http/request/http_request_parser.cpp:360-383 | at the end of the fields, exactly which combinations are framed and how the others are rejected |
| `HeadRejections.HeadExactly` | src/http/request/http_request_parser.cpp:448-500 | a head is rejected or incomplete exactly as its first line is, or as its fields are |
| `HeadRejections.NextLineExactly` | src/http/request/http_request_parser.cpp:391-441 | a section is rejected for its next line, ended by a blank one, or read on with what the line has added |
| `HeadRejections.AuthorityExactly` | src/http/request/http_request_parser.cpp:448-500 | an absolute target replaces the value of every Host field and nothing else |
| `PrintedHead.HeadRoundTrip` | src/http/request/http_request_parser.cpp:219-500 | every head written within the limits, with any blanks around its field values, is parsed to exactly its method, target, fields, length and framing, and consumed exactly, whatever follows |
| `PrintedHead.FieldLineParses` | src/http/request/http_request_parser.cpp:262-297 | a written field line is parsed to its name and its value without the surrounding blanks |
| `PrintedHead.RequestLineParses` | src/http/request/http_request_parser.cpp:219-257 | a written request line is parsed to its method and target |
| `PrintedHead.SectionParses` | src/http/request/http_request_parser.cpp:391-441 | a written header section is parsed to its fields and ends after its blank line |
| `HeadAcceptance.HeadIsWritten` | src/http/request/http_request_parser.cpp:219-500 | whatever is parsed as a head starts with a properly written one |
| `HeadAcceptance.AcceptsExactlyHeads` | src/http/request/http_request_parser.cpp:448-500 | the parser yields a head on exactly the inputs that start with a properly written head, and yields that head's meaning |
| `Request.ParseHttpRequest` | src/http/request/http_request_parser.cpp:504-549 | the request parser, with its decode loop, is the specified meaning of a request |
| `Request.RequestIsPrefixStable` | src/http/request/http_request_parser.cpp:504-549 | a complete request or a failure stays what it is as the buffer grows |
| `Request.ChunkedRequestIsMessage` | src/http/request/http_request_parser.cpp:504-549 | a chunked request is complete exactly when an acceptable message follows its head; body and end are that message's |
| `Request.FixedRequestIsBlock` | src/http/request/http_request_parser.cpp:504-549 | a request of fixed length is complete exactly when that many bytes follow its head, and they are its body |
| `Request.NoRequestWithoutHead` | src/http/request/http_request_parser.cpp:504-549 | a head that is rejected or incomplete makes the request so, for the same reason |
| `FileWriterProtocol.StepInv` | src/storage/temporary_file_writer.cpp:184-325 | every interleaved step of callers, I/O threads, abandon and finish keeps counters, ticket custody and mailbox consistency |
| `FileWriterProtocol.SlotsAreExact` | src/storage/temporary_file_writer.cpp:49-123 | in every reachable state both counters are the numbers of unreleased tickets of their kind, and orphaned <= active <= 32 |
| `FileWriterProtocol.TicketsReleasedOnce` | src/storage/temporary_file_writer.cpp:100-114 | whoever releases a ticket does so for the first time, and none is left when nobody is about to release |
| `FileWriterProtocol.CallsReturnTheirOwnResult` | src/storage/temporary_file_writer.cpp:253-289 | a call that was not interrupted, and every call that cannot be, returns the result of its own operation; operations reach the file once, in order, with their payloads, each on the handle the one before it left |
| `FileWriterProtocol.FatesOfAnOperation` | src/storage/temporary_file_writer.cpp:253-289 | a refused operation is never queued; an accepted one is queued after everything earlier was performed, and giving up takes nothing back; a caller that waits returns its own operation's result |
| `FileWriterProtocol.PayloadIsStable` | src/storage/temporary_file_writer.cpp:184-266 | no action rewrites the payload buffer while an operation is pending |
| `FileWriterProtocol.AbandonExactly` | src/storage/temporary_file_writer.cpp:293-325 | abandoning names the ticket in progress and stops the thread, closing only stops it; nothing is queued after either |
| `FileWriterProtocol.OrphanExactly` | src/storage/temporary_file_writer.cpp:88-98 | the named ticket counts as an orphan's until it is released, and no other does |
| `FileWriterProtocol.ThreadExactly` | src/storage/temporary_file_writer.cpp:184-227 | what each step of the I/O thread changes, and that it changes nothing else |
| `FileWriter.FileWorkerSlots.Acquire` | src/storage/temporary_file_writer.cpp:58-86 | a wait ends with a fresh ticket, exhaustion by orphans or interruption; a grant is the protocol's acquire step on the slots |
| `FileWriter.FileWorkerSlots.Orphan` | src/storage/temporary_file_writer.cpp:88-98 | the protocol's orphan step: a detached ticket is counted once and keeps its slot |
| `FileWriter.FileWorkerSlots.Release` | src/storage/temporary_file_writer.cpp:100-114 | the protocol's release step: a slot is returned once and no counter underflows |
| `FileWriter.MailboxState.Submit` | src/storage/temporary_file_writer.cpp:253-266 | the locked part of a call queues the payload, or refuses and changes nothing |
| `FileWriter.MailboxState.Publish` | src/storage/temporary_file_writer.cpp:212-218 | the I/O thread publishes a result for its sequence and takes the ticket |
| `FileWriter.TemporaryFileWriter.Write` | src/storage/temporary_file_writer.cpp:408-440 | result and counted bytes are exactly the specified outcome of the call: refusals, direct write, or pieces up to the first failure with what was counted although the caller gave up |
| `FileWriter.TemporaryFileWriter.EnsureWorker` | src/storage/temporary_file_writer.cpp:384-406 | an interruptible call starts the I/O thread once, or fails |
| `FileWriter.ThreadIsStartedOnce` | src/storage/temporary_file_writer.cpp:384-440 | whether a thread can be started matters only to an interruptible call that finds none |
| `FileWriter.CompletionThread` | src/storage/temporary_file_writer.cpp:384-466 | the same for a completion |
| `FileWriter.TemporaryFileWriter.Complete` | src/storage/temporary_file_writer.cpp:443-466 | result and completion of the file are exactly the specified outcome; only a success that the caller saw completes the writer |
| `FileWriter.AbandonedBytesStay` | src/storage/temporary_file_writer.cpp:271-289 | on any writer with an open file, an interruptible call with any payload can fail and still lengthen the file |
| `FileWriter.FailureCountsNothing` | src/storage/temporary_file_writer.cpp:408-440 | over everything the environment can do, a failed call is certain to count nothing exactly when the writer is complete, the payload is empty, the handle is closed, the interruption came before the call, or the call cannot be interrupted and is direct or a single piece |
| `FileWriter.FailureCompletesNothing` | src/storage/temporary_file_writer.cpp:443-466 | a failed completion is certain not to have completed the file exactly when the writer is complete, the handle is closed, or the wait cannot be given up |
| `FileWriter.WriteFatesAreExact` | src/storage/temporary_file_writer.cpp:234-290 | for a write through the mailbox, what its caller is told and whether its bytes count along any run of the protocol are exactly the outcomes of the possible fates: awaited, or given up if the call is interruptible |
| `FileWriter.CompletionFatesAreExact` | src/storage/temporary_file_writer.cpp:234-290 | the same for a completion through the mailbox |
| `FileWriter.AbandonedCounts` | src/storage/temporary_file_writer.cpp:271-289 | on an open file, a call with a deadline or a stop token and any payload can be abandoned, fail and count bytes |
| `FileWriter.OnlyFirstCounts` | src/storage/temporary_file_writer.cpp:427-439 | with an I/O thread, a call of more than one piece that cannot be interrupted can fail after its first piece was counted |
| `TemporaryFile.TemporaryFile.Write` | src/storage/temporary_file.cpp:185-235 | the result is the specified one of the native rounds; success appends all bytes and counts them; failure may leave a prefix in the file but counts nothing |
| `TemporaryFile.TemporaryFile.Complete` | src/storage/temporary_file.cpp:238-287 | complete exactly when flush, close and every policy check succeed; which error otherwise, and whether the handle is still open |
| `TemporaryFile.WriteSucceedsExactly` | src/storage/temporary_file.cpp:185-235 | a write succeeds exactly when undisturbed native calls take all of its bytes |
| `TemporaryFile.WriteFailsAt` | src/storage/temporary_file.cpp:185-235 | otherwise the first disturbance decides the error |
| `TemporaryFile.CompletionExactly` | src/storage/temporary_file.cpp:238-287 | success means flushed, closed and never stopped; each error has exactly its cause; the handle stays open exactly until the close |
| `TemporaryFile.TemporaryFile.Release` | src/storage/temporary_file.cpp:290-297 | hands the path over once, only after completion |
| `TemporaryFile.TemporaryFile.Cleanup` | src/storage/temporary_file.cpp:300-317 | closes the handle and removes the path at most once |
| `TemporaryFile.TemporaryFile.Assign` | src/storage/temporary_file.cpp:109-121 | move assignment removes what was owned and leaves one owner; self-assignment does nothing |
| `UploadFinalizer.Directory.CreateStage` | src/filesystem/detail/linux_upload_finalizer.cpp:49-70 | creates a new reserved entry at the first free name of at most 100, or changes nothing |
| `UploadFinalizer.Directory.CopySource` | src/filesystem/detail/linux_upload_finalizer.cpp:73-129 | under any short reads, short writes and interruptions, success copies exactly the expected bytes |
| `UploadFinalizer.Directory.PublishStage` | src/filesystem/detail/linux_upload_finalizer.cpp:132-155 | links the stage inode exactly when the name is free and linking works; never replaces |
| `UploadFinalizer.Directory.PublishFromStage` | src/filesystem/detail/linux_upload_finalizer.cpp:186-205 | from the created stage on: success means copied, flushed, not stopped and linked to a free name; every other end reports its cause; the stage is removed whatever the outcome |
| `UploadFinalizer.Directory.Publish` | src/filesystem/detail/linux_upload_finalizer.cpp:160-206 | result and error are exactly the specified ones; success leads the free name to exactly the counted bytes, failure leaves every public name as the rest of the world made it |
| `UploadFinalizer.Directory.Finalize` | src/filesystem/upload_finalizer.cpp:26-68 | the same behind the checks of source, policy, destination and parent |
| `UploadFinalizer.PublishWritten` | src/filesystem/upload_finalizer.cpp:26-68 | the whole way of an upload, with its exact result: a published file is the concatenation of what the calls of the writer counted, and of the accepted payloads unless a call failed that could have counted something |
| `UploadFinalizer.ResolvePublic` | src/filesystem/safe_path.cpp:322-347 | a resolved destination never carries a reserved staging name |
| `UploadFinalizer.StagingIsInvisible` | src/filesystem/detail/linux_upload_finalizer.cpp:29-40 | a stage entry and its removal cannot be seen through public names, whatever happens around them |
| `UploadFinalizer.PublishesExactly` | src/filesystem/detail/linux_upload_finalizer.cpp:160-206 | a publication succeeds exactly when source, stage, copy, flush, stop checks and link all do and the name is free; each error has exactly its cause |
| `UploadFinalizer.FinalizesExactly` | src/filesystem/upload_finalizer.cpp:26-68 | the same with the checks of source, policy, destination and parent before it |
| `UploadFinalizer.BufferExactly` | src/filesystem/detail/linux_upload_finalizer.cpp:103-125 | a buffer is written exactly when undisturbed writes take all of it |
| `UploadFinalizer.CopySucceeds` | src/filesystem/detail/linux_upload_finalizer.cpp:73-129 | reads and writes that deliver enough bytes copy the source |
| `UploadFinalizer.CopyFailsFor` | src/filesystem/detail/linux_upload_finalizer.cpp:73-129 | copying fails for the reason it reports |
| `UploadFinalizer.ResolvesExactly` | src/filesystem/safe_path.cpp:322-347 | a request resolves to the last component of a confined path exactly when nothing on the way is reserved |
| `UploadFinalizer.ReservedExactly` | src/filesystem/detail/upload_stage_name.hpp:11-40 | reserved names are those with the stage prefix |
| `Coordinator.OverlapIsCommonResource` | src/application/filesystem_resource_coordinator.cpp:77-90 | two claims overlap exactly when some resource lies under both |
| `Coordinator.AcquireInv` | src/application/filesystem_resource_coordinator.cpp:293-314 | a grant keeps isolation, the count, distinct identifiers and one lease per set; a refusal changes nothing |
| `Coordinator.LeaseInv` | src/application/filesystem_resource_coordinator.cpp:191-228 | every move, assignment and destruction of a lease keeps them too |
| `Coordinator.ExclusiveAccess` | src/application/filesystem_resource_coordinator.cpp:92-120 | after any run, if a claim governs a resource exclusively, every claim on that resource belongs to the same acquisition |
| `Coordinator.RefusedOnlyWhenContested` | src/application/filesystem_resource_coordinator.cpp:100-120 | a conflict is reported exactly when some resource is contested |
| `Coordinator.AcquireDecides` | src/application/filesystem_resource_coordinator.cpp:293-314 | in every reachable state, exactly what an acquisition is refused for, and what a grant adds |
| `Coordinator.PrepareDecides` | src/application/filesystem_resource_coordinator.cpp:250-292 | exactly what the preparation of claims fails for |
| `Coordinator.ReleasedExactlyOnce` | src/application/filesystem_resource_coordinator.cpp:184-228 | after any run the count is the sum of set sizes within 4096, each granted set is held or was released once, and no lease means no claim |
| `Coordinator.LeaseStepsExactly` | src/application/filesystem_resource_coordinator.cpp:191-228 | what moving, assigning and destroying leases do to the leases and to the registry |
| `Coordinator.MakeClaim` | src/application/filesystem_resource_coordinator.cpp:123-151 | a confined path becomes its naming components; an unconfined one is an error |
| `Coordinator.NormalLaws` | src/application/filesystem_resource_coordinator.cpp:141-149 | the components of a claim are those of the path that name something, in their order |
| `Coordinator.RequestsConflictExactly` | src/application/filesystem_resource_coordinator.cpp:77-151 | two requests conflict exactly when one is exclusive and one path leads to the other under the same root |
| `Coordinator.BelowConflicts` | src/application/filesystem_resource_coordinator.cpp:77-151 | a request and a request for anything below it conflict unless both are shared |
| `Coordinator.ExclusiveRequest` | src/application/filesystem_resource_coordinator.cpp:92-151 | exclusive access over requested paths: after any run nobody else holds the path, anything below it or above it |
| `Coordinator.AnyConflict` | src/application/filesystem_resource_coordinator.cpp:100-120 | the nested search finds a conflict exactly when there is one |
| `Coordinator.FilesystemResourceCoordinator.PrepareClaims` | src/application/filesystem_resource_coordinator.cpp:250-292 | claims are prepared for all requests exactly when nothing stands against it, and otherwise the first reason is reported |
| `Coordinator.FilesystemResourceCoordinator.Register` | src/application/filesystem_resource_coordinator.cpp:293-314 | the acquire step of a run: registers all claims or none and keeps the registry sound |
| `Coordinator.FilesystemResourceCoordinator.Unregister` | src/application/filesystem_resource_coordinator.cpp:221-227 | the release of a run: removes the set of an identifier and its size from the count, which cannot underflow |
| `Coordinator.FilesystemResourceLease.Release` | src/application/filesystem_resource_coordinator.cpp:213-228 | lets go once and leaves the lease empty |
| `Coordinator.FilesystemResourceLease.Assign` | src/application/filesystem_resource_coordinator.cpp:196-206 | releases what was held and takes over the other's set; self-assignment does nothing |
| `SessionStore.LazyIsIdeal` | src/session/session_store.cpp:63-140 | for readings non-decreasing in lock order, the lazily cleaned store equals, after each creation, authentication and invalidation, the store that drops sessions the instant they expire |
| `SessionStore.SameAnswers` | src/session/session_store.cpp:80-172 | for such readings every answer to a creation, authentication or invalidation, and what is live at every later instant, is the ideal store's |
| `SessionStore.Bounded` | src/session/session_store.cpp:68-101 | digests stay unique and the size within the maximum over every run |
| `SessionStore.EvictsLeastRecent` | src/session/session_store.cpp:68-77 | a creation drops a live session only from a full store, exactly one, and a least recently active one |
| `SessionStore.CreationExactly` | src/session/session_store.cpp:80-101 | a creation adds the session with both clocks at its reading, unless its digest exists; a full store gives up a least recent session for it |
| `SessionStore.AuthenticationExactly` | src/session/session_store.cpp:125-133 | an authentication names the principal of the session and moves its activity, and no other session changes |
| `SessionStore.InvalidationExactly` | src/session/session_store.cpp:156-166 | an invalidation names the principal of the session and removes this session only |
| `SessionStore.AuthenticationIsJustified` | src/session/session_store.cpp:50-140 | a successful authentication goes back to one creation within the absolute lifetime, never invalidated since, with activity within the idle timeout |
| `SessionStore.EarlyReadingShortens` | src/session/session_store.cpp:125-133 | after a reading out of lock order a session is found exactly until its idle time from that reading, or its absolute lifetime, is over: never longer than its latest activity allows |
| `SessionStore.EarlyReadingCosts` | src/session/session_store.cpp:50-55 | as the next call sees it, such a reading costs the session time exactly when it is earlier than the latest activity and the idle time from it ends before the absolute lifetime |
| `SessionStore.EarlyReadingCanCost` | src/session/session_store.cpp:125-133 | over all later calls, evictions included, such a reading can cost the session, compared with a store that remembers the later activity, exactly when it is earlier than that activity and there is room for more than one session or the idle time from it ends before the absolute lifetime |
| `SessionStore.SessionStore.RemoveExpired` | src/session/session_store.cpp:63-66 | keeps exactly the live entries, in order |
| `SessionStore.SessionStore.CreateSession` | src/session/session_store.cpp:80-109 | at most four generated credentials are tried; the returned one is registered |
| `SessionStore.SessionStore.AuthenticateCredential` | src/session/session_store.cpp:112-140 | answers as the event history demands; an undigestible credential never reaches the store |
| `SessionStore.SessionStore.InvalidateCredential` | src/session/session_store.cpp:143-172 | likewise for invalidation |
| `RateLimiter.ThrottledExactly` | src/authentication/detail/authentication_rate_limiter.cpp:12-49 | after any serialized run, an attempt is turned away exactly when the failures since the last success fill whole sequences and the last one's cooldown runs; an elapsed cooldown restores access |
| `RateLimiter.AnswersExactly` | src/authentication/authentication_service.cpp:102-131 | only a known principal whose password was verified is let in; each other answer has exactly its cause |
| `RateLimiter.BlockIsNotExtended` | src/authentication/detail/authentication_rate_limiter.cpp:29-43 | failures while blocked change nothing; only the failure that fills the counter starts a block |
| `RateLimiter.FailureWindow` | src/authentication/detail/authentication_rate_limiter.cpp:29-43 | maximum + 1 failures without a success between them span at least one cooldown exactly when they end before the clock does or a whole cooldown was representable when they began |
| `RateLimiter.WindowHoldsFew` | src/authentication/detail/authentication_rate_limiter.cpp:29-43 | a window shorter than the cooldown holds at most the maximum number of such failures |
| `RateLimiter.SaturatedCooldownIsEmpty` | src/authentication/detail/authentication_rate_limiter.cpp:37-42 | under every policy, any number of attempts at the clock's last instant is let through |
| `RateLimiter.HammeringBreaks` | src/authentication/detail/authentication_rate_limiter.cpp:37-42 | under every policy, maximum + 1 failures at the clock's last instant break the promise |
| `RateLimiter.PromiseHoldsExactly` | src/authentication/detail/authentication_rate_limiter.cpp:12-49 | all runs up to an instant keep the promise if and only if the clock goes on after it |
| `RateLimiter.AuthenticationRateLimiter.Allows` | src/authentication/detail/authentication_rate_limiter.cpp:12-27 | blocks exactly during a stored cooldown and starts afresh after it |
| `RateLimiter.AuthenticationRateLimiter.RecordFailure` | src/authentication/detail/authentication_rate_limiter.cpp:29-43 | counts a failure and stores the saturating end of the cooldown at the threshold |
| `RateLimiter.AuthenticationService.Authenticate` | src/authentication/authentication_service.cpp:102-131 | the serialized driver turns attempts away exactly while the history is cooling down |
| `Utf8.DecodeOne` | src/foundation/text/utf8.cpp:54-121 | the decoder with its inner loop is the specified decoding |
| `Utf8.IsValid` | src/foundation/text/utf8.cpp:123-136 | the loop decides well-formedness |
| `Utf8.AppendCodePoint` | src/foundation/text/utf8.cpp:138-185 | appends the encoding of a scalar value, or leaves the text as it was |
| `Utf8.DecodeEncode` | src/foundation/text/utf8.cpp:54-185 | an encoded scalar followed by any bytes decodes to itself with its length |
| `Utf8.EncodeDecode` | src/foundation/text/utf8.cpp:54-185 | whatever decodes is the canonical encoding of its value |
| `Utf8.WellFormedExactly` | src/foundation/text/utf8.cpp:123-136 | valid texts are exactly the concatenations of encodings |
| `Utf8.EncodingIsUnambiguous` | src/foundation/text/utf8.cpp:54-185 | a text has one reading as scalars |
| `Utf8.ScalarValuesExactly` | src/foundation/text/utf8.cpp:54-121 | scalar values are the code points up to U+10FFFF that are not surrogates |
| `ConfigLexer.ConfigLexer.SkipTrivia` | src/configuration/config_lexer.cpp:141-193 | skips blanks, line breaks and checked comments as specified |
| `ConfigLexer.ConfigLexer.LexString` | src/configuration/config_lexer.cpp:223-248 | decodes one string literal, or the first error in it |
| `ConfigLexer.ConfigLexer.ConsumeStringCharacter` | src/configuration/config_lexer.cpp:250-289 | one character of a literal: its text and what follows, or the error |
| `ConfigLexer.ConfigLexer.ConsumeEscape` | src/configuration/config_lexer.cpp:291-352 | one escape, or the error |
| `ConfigLexer.ConfigLexer.Next` | src/configuration/config_lexer.cpp:368-428 | one token of the unread bytes; after a failure the same error for ever |
| `ConfigLexer.ConfigLexer.Create` | src/configuration/config_lexer.cpp:73-90 | inputs over the size limit are refused; a byte-order mark is skipped at the very start only |
| `LexerGrammar.LexesExactly` | src/configuration/config_lexer.cpp:368-428 | the lexer yields a token exactly where one is spelled after blanks and comments |
| `LexerGrammar.StringsExactly` | src/configuration/config_lexer.cpp:223-352 | a string literal is read exactly when its characters can be written so, escapes included, and means what they mean |
| `LexerGrammar.StringFailsAt` | src/configuration/config_lexer.cpp:223-352 | a failing string is blamed on its first character that is not allowed |
| `LexerGrammar.StringCharacterFails` | src/configuration/config_lexer.cpp:250-352 | why a character of a string is not allowed |
| `LexerGrammar.CharacterFails` | src/configuration/config_lexer.cpp:250-289 | a character is rejected exactly as null, as a byte-order mark, or because no scalar begins there |
| `LexerGrammar.UnexpectedExactly` | src/configuration/config_lexer.cpp:368-428 | exactly which characters start no token |
| `ConfigLexer.IdentifierStartsExactly` | src/configuration/config_lexer.cpp:28-33 | identifiers start with a letter or an underscore |
| `ConfigLexer.ContinuationsExactly` | src/configuration/config_lexer.cpp:36-41 | and go on with these, digits and hyphens |
| `ConfigLexer.DigitsExactly` | src/configuration/config_lexer.cpp:210-221 | integers consist of the ten digits |
| `Credentials.EscapeLoginText` | src/authentication/credential_file_provisioner.cpp:37-50 | the escaping loop is the specified escaping |
| `Credentials.StringRoundTrip` | src/configuration/config_lexer.cpp:223-352 | an escaped login reads back exactly when it is text without a byte-order mark, and then unchanged |
| `Credentials.CleanExactly` | src/configuration/config_lexer.cpp:250-289 | the lexer's byte checks are: Unicode text without U+FEFF |
| `Credentials.FileRoundTrip` | src/authentication/credential_file_provisioner.cpp:53-58 | the printed file loads to exactly its login and verifier if and only if the login is Unicode text without U+FEFF and the file fits; otherwise it does not load |
| `Credentials.UnloadableLogin` | src/authentication/file_credential_provider.cpp:350-361 | a login the provisioner accepts and the loader never can |
| `Credentials.CredentialSourceParser.ParseFile` | src/authentication/file_credential_provider.cpp:53-138 | the token loop is the specified grammar, each directive at most once |
| `Credentials.ParsesExactly` | src/authentication/file_credential_provider.cpp:53-138 | a file is accepted exactly for its tokens: the owner block with each directive at most once and nothing after it; anything else is malformed |
| `Credentials.ChecksExactly` | src/authentication/file_credential_provider.cpp:395-418 | exactly what a well-formed file is rejected for |
| `Credentials.LoadsExactly` | src/authentication/file_credential_provider.cpp:375-418 | size limit and byte-order mark come first |
| `Credentials.LoginsExactly` | src/authentication/file_credential_provider.cpp:350-361 | a login is 1 to 128 bytes without control characters |
| `Credentials.CreateFromSource` | src/authentication/file_credential_provider.cpp:375-418 | the loader is the specified meaning of a file, with its errors in order |
| `Router.IsValidPattern` | src/http/routing/http_router.cpp:30-69 | the loop accepts exactly the pattern grammar |
| `Router.PatternsExactly` | src/http/routing/http_router.cpp:16-69 | valid patterns are exactly an absolute path of path characters and percent escapes, with a star allowed after its last slash |
| `Router.SelectRoute` | src/http/routing/http_router.cpp:200-224 | returns a match that beats every other match (exact, longest, explicit HEAD), or none when there is none |
| `Router.MatchesExactly` | src/http/routing/http_router.cpp:72-99 | a route matches its own path and, with a wildcard, everything below it; GET also serves HEAD |
| `Router.PreferenceExactly` | src/http/routing/http_router.cpp:108-118 | exact routes win over wildcards, then the longer prefix, then an explicit HEAD over GET |
| `Router.MatchesAreComparable` | src/http/routing/http_router.cpp:108-118 | two different matches are never equally good |
| `Router.BestIsUnique` | src/http/routing/http_router.cpp:108-118 | there is one best match |
| `Router.OrderDoesNotMatter` | src/http/routing/http_router.cpp:200-224 | permuting the registrations does not change the selection |
| `Router.HttpRouter.RegisterRoute` | src/http/routing/http_router.cpp:161-197 | a route is appended exactly when its pattern is valid, its handler given, its key new and the table not full; each error has exactly its cause |
| `Router.RouteForExactly` | src/http/routing/http_router.cpp:161-197 | a table entry keeps the pattern and its kind |
| `Router.RegisteredExactly` | src/http/routing/http_router.cpp:161-197 | a route is a duplicate exactly of one that differs in nothing but the handler |
| `Router.RequestPathExactly` | src/http/routing/http_router.cpp:75-79 | the path of a target is what stands before its query |
| `Router.HttpRouter.Dispatch` | src/http/routing/http_router.cpp:227-279 | the best match handles with the captured suffix; a 405 lists a method exactly when selection for it would succeed, in order, once each; 404 exactly when none would |
| `ResponseHead.ValidateHeader` | src/http/response/http_response.cpp:44-81 | accepts a field exactly when it is permitted and fits, and returns its serialized size |
| `ResponseHead.HeaderErrorsExactly` | src/http/response/http_response.cpp:44-81 | exactly what is wrong with a field; framing, connection and date fields belong to the server |
| `ResponseHead.StatusesExactly` | src/http/response/http_response.cpp:26-35 | which statuses carry no body, and which of them announce a length |
| `ResponseHead.ValidateResponse` | src/http/response/http_response.cpp:85-143 | accepts exactly the acceptable responses, adds up the size the writer reserves, and explains the first failure |
| `ResponseHead.SerializedHeadSize` | src/http/transport/http_response_writer.cpp:86-105 | the reserved size |
| `ResponseHead.SerializeHead` | src/http/transport/http_response_writer.cpp:182-213 | produces the status line, fields and framing lines in order |
| `ResponseHead.DecimalDigitCount` | include/sparenode/http/detail/number.hpp:12-21 | the counted digits are the printed digits |
| `ResponseHead.SizesAgree` | src/http/transport/http_response_writer.cpp:86-213 | validated, reserved and serialized sizes are one number within the head limit |
| `ResponseHead.HeadEndsAtFirstMarker` | src/http/transport/http_response_writer.cpp:182-213 | the first CRLFCRLF of head and any body is the end of the head |
| `ResponseHead.HeadIsDetermined` | src/http/transport/http_response_writer.cpp:182-213 | a serialized head determines status, reason, fields and content length |
| `ResponseHead.MessagesAreUnambiguous` | src/http/transport/http_response_writer.cpp:182-213 | equal bytes on the wire mean equal status, reason, fields, content length and body |
| `ResponseFields.FieldsReadBack` | src/http/transport/http_response_writer.cpp:182-213 | every line after the status line reads back as the field it was made from |
| `ResponseFields.StatusLineReads` | src/http/transport/http_response_writer.cpp:182-213 | the status line holds HTTP/1.1, the status in decimal and the reason |
| `ResponseFields.LengthReadsBack` | src/http/transport/http_response_writer.cpp:182-213 | at most one field announces a length, it is the server's own and reads back as the length of the body; none announces a transfer coding |
| `ResponseWriter.Connection.SendAll` | src/http/transport/http_response_writer.cpp:108-128 | delivers all of the bytes in order or a prefix; it fails only when a send failed or took nothing, and says which |
| `ResponseWriter.Connection.WriteStreamingBody` | src/http/transport/http_response_writer.cpp:131-177 | pulls until exactly the declared length is sent; each failure has its cause in the source or the connection |
| `ResponseWriter.Connection.WriteResponse` | src/http/transport/http_response_writer.cpp:216-240 | on success the head and, unless the request was HEAD, exactly the declared body; on failure a prefix of such a message and the cause |

## Left out

- Request targets, Host authorities and their percent rules are function parameters of the head parser; theorems hold for every such function.
- Waiting, wake-ups, timers, the poller and thread creation: only safety over all interleavings is stated, not fairness or progress.
- The policy checks around a native write may stop it in the model even when the call has neither deadline nor stop token; the theorems hold in this larger environment, and the runs they exhibit do not use it.
- Allocation failures (`std::bad_alloc`) in all components.
- Password hashing, digests and randomness: functions or scripts; nothing is assumed about collisions.
- The number of retained sessions that `size()` reports, which includes expired ones until the next call cleans up.
- Coordinator claim sorting before registration: the order inside one claim set has no effect on conflicts.
- Coordinator and writer identifiers and sequence numbers are unbounded; their 64-bit wrap-around is not modelled.
- Lexer line and column numbers and error contexts; the text of the `Allow` field and reason phrases.
- The formatted date of a response is a parameter of 29 characters without line breaks.
- Directory entries of other processes change in the model only between copying and linking and between linking and cleanup of an upload; real path resolution, symbolic links and the Windows publication path are not part of this model.
- File contents of foreign inodes and the life of unlinked inodes are not modelled.
- Configuration validation, JSON helpers, MIME lookup, logging and the command line: independent single checks that would only add easy members.
