# doba: a verified model of the server core

This Dafny 4.11 project models the core of the doba HTTP/1.1 server and proves what it promises. Verify with
`dafny verify dfyconfig.toml`.

| files | what they model |
|---|---|
| `ReplyOrder`, `ReplySlots`, `LinuxContext`, `WindowsContext` | pipelined replies: one abstract ordering machine, and the two connection contexts that refine it |
| `WakeUp`, `AcceptPipeline` | the eventfd wake-up protocol of a Linux worker; accept pipeline, context registry and shutdown wait on Windows |
| `HttpText`, `HeaderList`, `Response`, `Framing`, `Server` | the response that is edited in place in 4096 bytes, its framing fields over whole histories, and the HEAD answer |
| `IpAddress`, `UriReference`, `Comment` | hand-written recognizers against the grammars of RFC 3986 and RFC 9110 |
| `PercentDecode`, `QueryParameters`, `RequestObject` | decoding in place, the pairs of a query, and the request object built around them |
| `RequestHead`, `HeadParser`, `TargetGrammar`, `TargetViews`, `HeadGrammar` | the head of a request: what one run over the bytes reads, the loops that do it, which targets and heads that accepts, and what it takes them to say |
| `Scanning`, `AbsoluteForm`, `HeadStability`, `Rejection`, `EndlessHead` | what more bytes can change about a head, when its rejection is final, and which heads wait for ever |
| `Framers`, `ChunkedBodies`, `ChunkedGrammar` | where bodies end: the automata, against the grammar in both directions |
| `Delivery`, `Reception`, `Answers`, `Decoder` | how a stream becomes requests, what each answer of the decoder means for the bytes received, and exactly when the way they arrive matters |
| `RoutePattern`, `Router`, `Storage`, `ThreadPool` | route selection, spill-to-file storage, the thread pool |

Concurrent classes are modelled with one method per critical section. `Valid` is all that such a method asks for, so
it holds after any interleaving of threads; partial sends, failures and completions are parameters or choices of the
environment. The contexts carry the run of the ordering machine as ghost state, and the theorems of `ReplyOrder` are
about all runs. Loops over buffers are methods proved against a function or a grammar, and the grammars are written
down as the RFCs state them, with existential cuts, not as the loops look for them.

## What the proofs found

* **Rejected too early** (`Rejection.RejectionIsFinal`). The decoder judges a target that still runs to the end of
  the data. Exactly then a rejection is not final: a further `%` makes the decoder ask for more bytes again. `GET /%00`
  is rejected for its NUL, `GET /%00%` is not (`Rejection.NulIsSeenTooEarly`).
* **User information taken for a host and a port** (`Rejection.UserinfoReopens`). `GET h://u:p` is rejected for its port,
  and with `@h HTTP/1.1` behind it it is a good request line. Exactly the rejected heads that end in an authority
  without `@`, and well formed as user information, can still get an acceptable target. A complete head survives every
  cut exactly when its user information, if any, would pass for a host and a port (`Rejection.PlainNeverRejected`).
* **When the cut shows** (`Reception.WhenTheCutShows`). For every stream, each way to cut it into deliveries gives the
  same requests and the same end exactly unless a complete head has user information that would not pass for a host
  and a port (and the body behind it is not broken anyway), or the stream, taken at once, leaves the decoder waiting
  for a head that is suspect: a NUL in what is there of its path, an authority that is bad as it stands, or such user
  information.
* **More behind an IP-literal** (`TargetGrammar.TargetOnText`). The decoder accepts exactly the targets of section 3.2
  of RFC 9112, and absolute forms such as `h://[v1.a]x`, which are no URIs (`TargetGrammar.LooseIsOutside`).
* **A bracket that is never closed** (`EndlessHead.WaitsForEver`). The decoder waits for bytes that cannot help, until
  its buffer is full, exactly when the authority of the target is over and opens a bracket that it does not close;
  `GET h://[x ` is such a head (`EndlessHead.WaitsForABracket`).
* **A window in stop()** (`WakeUp.WhoIsServed`). Between raising the stop flag and withdrawing the acceptance, the worker
  may leave with a notification in the queue (`WakeUp.LeavesTheQueue`), and one may be accepted after it has left
  (`WakeUp.ComesTooLate`); nobody serves them. What was accepted can still be served exactly while stop has dropped
  nothing and, should something be queued, the worker is in its loop without a stop, or about to take the queue.
* **An exception out of the pouring of replies** (`WindowsContext.Respond`, `WindowsContext.Refuse`). When a handler sends
  from a thread of its own, or an error reply is sent, a Windows connection is stalled afterwards exactly if an exception
  came out of the pouring: it has something to send and no send in flight (`WindowsContext.NeverSent`). `fail_response`
  is called, but the reply is in the queue already, so it does nothing.
* **The Allow field of a 405** (`Framing.AllowIsLost`, `Server.Dispatch`) is forgotten by the status helper that follows
  it, for every request that the router answers with one.
* **An asynchronous route** (`Router.Router.Match`) is matched and never answered exactly when its parameters do not
  parse or the pool has been stopped (`Router.UnansweredInThePool`); called at once it would be skipped, or answered.
* **HEAD and a framing field that is there twice** (`Server.HeadKeepsFields`). The second value is overwritten by the
  first; with at most one value each, HEAD keeps all fields.
* **Writing to a file that has been read** (`Storage.ByteStorage.Write`) puts the bytes over those still to come, exactly
  when there are any; `Storage.WritingOverwrites` is an example.
* **White space behind a chunk extension** (`ChunkedGrammar.CompletesExactly`) is let through in front of the CRLF, where
  section 7.1.1 of RFC 9112 has none. Otherwise the framer takes exactly the messages of the grammar, within its limits.
* Inside `serialize` the branch for an empty header block and the check for the space of the empty line can never be
  taken, because the Date field is in place by then (`Response.Response.DateTakesSpace`). They are stated as facts.

## Model

| member | source | states |
|---|---|---|
| ReplyOrder.RunSound | README.md:31-31 | In every run that the rules of the ordering model allow, the bytes on the wire are a prefix of the replies concatenated in id order, poured bytes never run ahead of that concatenation, and every id stands for at most one slot. |
| ReplyOrder.RunExtends | README.md:31-31 | A longer run never rewrites the wire, replaces an accepted reply, or reopens a closed, aborted or shut connection. |
| ReplyOrder.TruncationIsFinal | include/transport/server/tcpip_linux.h:163-183 | Cutting the ids from `keep` on drops no byte that was poured; whatever happens later, no dropped id is answered or sent, and no new id gets a slot. |
| ReplyOrder.CleanShutdown | include/transport/server/tcpip_linux.h:797-829 | A run that closes its socket without an abort does so only when every retained id has been answered and the wire holds all the answers in id order, and nothing changes that afterwards. |
| ReplyOrder.CompletionOrderIsInvisible | README.md:31-31 | Two runs that keep the same ids with the same replies and shut down without an abort put the same bytes on the wire, whatever the order of completion and the split of the sends. |
| ReplyOrder.OrderedAccept | include/transport/server/tcpip_linux.h:295-308 | Accepting a further reply only ever extends the id-ordered concatenation. |
| ReplyOrder.OrderedExtend | include/transport/server/tcpip_linux.h:327-358 | The id-ordered concatenation up to a later id begins with the one up to an earlier id, and splits there when all ids in front are answered. |
| ReplySlots.ReadSource | include/common/reader.h:95-109 | A bounded read yields a nonempty front part of what the source has left; a faulty source fails at any read, and at the end at the latest. |
| ReplySlots.QueueAccept | include/transport/server/tcpip_linux.h:295-308 | Filling a waiting slot keeps the queue in agreement with the ordering model. |
| ReplySlots.QueueAllocate | include/transport/server/tcpip_linux.h:145-150 | An empty slot at the back is the slot of the next id. |
| ReplySlots.QueueTruncate | include/transport/server/tcpip_linux.h:312-323 | Cutting the queue behind a started slot is a legal truncation of the run. |
| ReplySlots.PourPrefix | include/transport/server/tcpip_linux.h:327-358 | Writing the prefix of the front slot moves bytes from the queue to the poured bytes and changes nothing else. |
| ReplySlots.PourChunk | include/transport/server/tcpip_linux.h:327-358 | So does a chunk read from its source. |
| ReplySlots.PourRetire | include/transport/server/tcpip_linux.h:327-358 | Retiring a front slot that has nothing left keeps the agreement with the next id in front. |
| ReplySlots.PourFront | include/transport/server/tcpip_linux.h:327-358 | One turn of the pouring loop: the bytes that leave the queue are exactly those that enter the buffer, the work left decreases, it fails only when the source in front is a faulty one, and otherwise a faulty source among the replies that can be poured stays there to be met. |
| ReplySlots.AllIsPoured | include/transport/server/tcpip_linux.h:327-358 | When the slot in front has no reply, all that can be sent has been poured. |
| ReplySlots.EnoughSends | include/transport/server/tcpip_linux.h:220-241 | As many sends as there are bytes, each of at least one byte, with interruptions in between, are enough for any bytes in the buffer and in the queue. |
| LinuxContext.Context.GetNextResponseId | include/transport/server/tcpip_linux.h:145-150 | Ids are handed out in sequence, each with a slot unless the connection is closing; the run grows by one allocation. |
| LinuxContext.Context.EnqueueResponse_ | include/transport/server/tcpip_linux.h:295-308 | A reply is taken exactly when the ordering model can accept one for its id; otherwise nothing changes. |
| LinuxContext.Context.EnqueueResponse | include/transport/server/tcpip_linux.h:154-159 | The public call does the same, from any thread and in any order. |
| LinuxContext.Context.Truncate_ | include/transport/server/tcpip_linux.h:168-177 | The queue is cut to its first slots, the run records the truncation, and the connection is closing. |
| LinuxContext.Context.FailResponse_ | include/transport/server/tcpip_linux.h:312-323 | A failed handler cuts the queue at its own id, exactly when that id is still unanswered. |
| LinuxContext.Context.FailResponse | include/transport/server/tcpip_linux.h:181-184 | The public call does the same. |
| LinuxContext.Context.EnqueueErrorResponse | include/transport/server/tcpip_linux.h:163-177 | An accepted error reply is the last one: everything behind it is dropped. |
| LinuxContext.Context.AppendSendableResponses_ | include/transport/server/tcpip_linux.h:327-358 | Pours leading finished slots until the buffer is full or the next one is not ready; the run grows by the poured bytes. It fails, and aborts, only when one of the replies that can be poured has a faulty source, and whenever that source is reached. |
| LinuxContext.Context.Sent_ | include/transport/server/tcpip_linux.h:220-241 | A send of some bytes moves just these from the buffer to the wire. |
| LinuxContext.Context.FlushSend | include/transport/server/tcpip_linux.h:220-241 | For every sequence of partial, interrupted, blocked or failed sends the loop terminates and leaves a legal run. It fails exactly when the socket is gone or the connection aborted before, when a source in front is faulty, or when bytes are left and the socket does not just block; it never fails because the socket is full. When nothing is left to send, the wire holds all replies up to the first open id. Sends and interruptions that cover a number of bytes put these on the wire, and all of them if they cover all. |
| LinuxContext.Context.FlushTurn_ | include/transport/server/tcpip_linux.h:220-241 | One turn of that loop loses nothing of what is buffered and what can be poured, and goes on exactly behind a send of some bytes or an interruption. |
| LinuxContext.Context.SendOnce_ | include/transport/server/tcpip_linux.h:220-241 | One send: some bytes are moved to the wire, an interruption is tried again, a full socket ends the flush well and all else ends it badly. |
| LinuxContext.Context.GetEventMask | include/transport/server/tcpip_linux.h:245-259 | Nothing is left to watch exactly when the socket is gone, the connection was aborted, or it is closing with nothing left to send; no section of any thread undoes that. |
| LinuxContext.Context.Close | include/transport/server/tcpip_linux.h:195-198 | After close no further id gets a slot; nothing already queued is lost. |
| LinuxContext.Context.Connected | include/transport/server/tcpip_linux.h:188-191 | Only marks the context as connected, open or not. |
| LinuxContext.Context.Abort_ | include/transport/server/tcpip_linux.h:362-368 | Gives up queue and buffer and records the abort. |
| LinuxContext.Context.Abort | include/transport/server/tcpip_linux.h:202-205 | The public call does the same. |
| LinuxContext.Context.RetireSocket | include/transport/server/tcpip_linux.h:263-270 | The socket is given up once. The run is shut after an abort or when the model is drained; what was left to send otherwise is recorded as dropped. |
| LinuxContext.Context.NotifyDisconnection | include/transport/server/tcpip_linux.h:274-284 | The disconnection of a connected context is reported, and at most once. |
| LinuxContext.Context.CloseContext | include/transport/server/tcpip_linux.h:821-829 | Closing shuts the socket and reports the disconnection once, with handler calls between the two sections; something is dropped exactly when there was something to send and no abort. |
| LinuxContext.Context.Others | include/transport/server/tcpip_linux.h:715-745 | Handler calls that come between two sections of the worker keep the context valid, do not undo that it may be closed, and get nowhere once it may be. |
| LinuxContext.Context.Register | include/transport/server/tcpip_linux.h:619-641 | A new context stays open and connected, or is closed again without ever reporting a disconnection. |
| LinuxContext.Context.AbortContext | include/transport/server/tcpip_linux.h:814-817 | After an abort, with handler calls in between, the socket is shut and the disconnection reported once. |
| LinuxContext.Context.IdleIsDrained | include/transport/server/tcpip_linux.h:245-259 | With nothing in queue and buffer, every retained id is answered and all answers are on the wire. |
| LinuxContext.Context.Service | include/transport/server/tcpip_linux.h:797-810 | Flush, event mask, abort, retirement and notification, each a section of its own with any handler calls in between: the context is closed only after an abort or when the model is drained, nothing is dropped, and one that stays open waits for something unless a handler got through and will notify the worker. It is aborted only for a faulty source, a send that fails with bytes left, or a socket that cannot be armed again. |
| WindowsContext.Context.EnqueueResponse_ | include/transport/server/tcpip_windows.h:313-323 | As on Linux: a reply is taken exactly when the ordering model can accept it. |
| WindowsContext.Context.EnqueueResponse | include/transport/server/tcpip_windows.h:186-191 | The reply is taken exactly when the ordering model can accept it, and otherwise nothing changes. |
| WindowsContext.Context.GetNextResponseId | include/transport/server/tcpip_windows.h:179-182 | Ids in sequence, each with a slot unless the connection is closing. |
| WindowsContext.Context.Truncate_ | include/transport/server/tcpip_windows.h:195-212 | Cuts the queue behind a started slot and stops further slots. |
| WindowsContext.Context.FailResponse_ | include/transport/server/tcpip_windows.h:335-344 | A failed handler cuts the queue at its own id, and nothing is done when that id cannot be answered any more; an exception stalls the connection. |
| WindowsContext.Context.FailResponse | include/transport/server/tcpip_windows.h:212-219 | The public call does the same and never leaves the connection stalled: it gives it up when an exception comes out of any turn of the pouring. |
| WindowsContext.Context.EnqueueErrorResponse | include/transport/server/tcpip_windows.h:195-208 | An accepted error reply is the last one and the connection is closing; it is stalled exactly when an exception came out of the pouring. |
| WindowsContext.Respond | include/transport/server/tcpip_windows.h:1022-1052 | What becomes of a response that a handler hands over from a thread of its own: the connection is stalled exactly when an exception came out of the pouring, because fail_response has nothing left to do then. |
| WindowsContext.Refuse | include/transport/server/tcpip_windows.h:959-970 | The error response to a malformed request: after an exception the connection is closing and nothing is in flight that would ever close it. |
| WindowsContext.NeverSent | include/transport/server/tcpip_windows.h:1022-1052 | A connection with one request, whose response is in the queue for good. |
| WindowsContext.Context.PourSendable_ | include/transport/server/tcpip_windows.h:348-397 | Pours leading finished slots into the used-up buffer until it is full or the next one is not ready; only a faulty source aborts the connection, and only an exception in front of one of the turns that the work in the queue takes leaves it open with what was poured so far. |
| WindowsContext.Context.ArmNextSendOperation_ | include/transport/server/tcpip_windows.h:348-397 | Nothing happens while a send is in flight; otherwise at most one is started, and afterwards there is something to do with nothing in flight exactly when an exception came out of the pouring. The connection is aborted only for a faulty source or a send that the system refuses. |
| WindowsContext.Context.StartSend_ | include/transport/server/tcpip_windows.h:421-436 | Refills a used-up buffer and posts one send; aborts only for a faulty source or when the system refuses the send, and stalls exactly when an exception comes out of the pouring. |
| WindowsContext.Context.ArmNextSendOperation | include/transport/server/tcpip_windows.h:253-256 | The public call does the same. |
| WindowsContext.Context.CheckSendingBufferAndArm | include/transport/server/tcpip_windows.h:223-239 | A completed send puts exactly its bytes on the wire, and the next send is armed or the socket closed when nothing is left; aborted only for an impossible count, a faulty source or a refused send, and stalled exactly after an exception. |
| WindowsContext.Context.SendFailed | include/transport/server/tcpip_windows.h:280-284 | A failed send is no longer in flight, what was left is given up, and the connection is aborted. |
| WindowsContext.Context.ArmNextReceiveOperation | include/transport/server/tcpip_windows.h:243-249 | A receive is posted only while none is in flight and the socket is open and not closing. |
| WindowsContext.Context.ReceiveCompleted | include/transport/server/tcpip_windows.h:260-268 | A completed receive is no longer in flight; the context is retired if that was the last operation on a closed socket. |
| WindowsContext.Context.ReceiveFailed | include/transport/server/tcpip_windows.h:272-276 | A failed receive ends input and lets the connection end. |
| WindowsContext.Context.CleanupResources_ | include/transport/server/tcpip_windows.h:440-450 | Closes the socket of a closing context exactly when nothing is left to send. |
| WindowsContext.Context.CloseSocket_ | include/transport/server/tcpip_windows.h:467-473 | The socket is closed once; the disconnection is reported once. |
| WindowsContext.Context.Retire_ | include/transport/server/tcpip_windows.h:492-496 | A context is retired exactly once, when its socket is closed and neither a receive nor a send is in flight. |
| WindowsContext.Context.NotifyDisconnection_ | include/transport/server/tcpip_windows.h:477-488 | A connected context reports its disconnection once. |
| WindowsContext.Context.Abort_ | include/transport/server/tcpip_windows.h:454-463 | Gives up what was not sent, but never touches a buffer that the system is still sending from. |
| WindowsContext.Context.Abort | include/transport/server/tcpip_windows.h:288-291 | The public call does the same. |
| WindowsContext.Context.ReportConnected | include/transport/server/tcpip_windows.h:295-299 | Marks the context as connected; one whose socket is closed already has its disconnection reported, exactly once. |
| WindowsContext.Context.Close | include/transport/server/tcpip_windows.h:303-307 | No further slot; the socket is closed when nothing is left to send. |
| WindowsContext.AgesOverRuns | include/transport/server/tcpip_windows.h:492-496 | Over any number of steps of a context, each of which every method promises to be of this kind: closed is for good, no operation starts on a closed socket, and a retired context never changes again. |
| WakeUp.NoLostWakeUp | include/transport/server/tcpip_linux.h:512-586 | When a wake-up is lost, exactly: when the worker is out of its loop with something in the queue while notifications are still accepted; so never before a stop is asked for or epoll fails. |
| WakeUp.WhoIsServed | include/transport/server/tcpip_linux.h:486-586 | After any run, some continuation serves every notification accepted so far exactly when stop has dropped none and, should any be queued, the worker is in its loop without a stop, or about to take the queue; then the worker, left alone, serves them once and in order. |
| WakeUp.ComesTooLate | include/transport/server/tcpip_linux.h:486-523 | A run with the counter up and a notification accepted that no continuation serves: it came after the worker had left. |
| WakeUp.LeavesTheQueue | include/transport/server/tcpip_linux.h:486-523 | The shortest run in which the worker leaves with a notification in the queue: it wakes up between the two halves of stop. |
| WakeUp.WhenAWakeUpCanGetLost | include/transport/server/tcpip_linux.h:486-523 | From which points of a run a wake-up can still get lost, exactly: as long as notifications are accepted. |
| WakeUp.NobodyServesAfterwards | include/transport/server/tcpip_linux.h:503-507 | What is queued once the worker is out is served by nobody; it stays queued until stop clears it. |
| WakeUp.NotificationsAreConserved | include/transport/server/tcpip_linux.h:512-586 | Accepted notifications are those served, being served, queued or cleared by stop, each once and in order; stop clears only what a worker that has left did not serve. |
| WakeUp.EveryNotificationIsServed | include/transport/server/tcpip_linux.h:562-586 | After any run in which nobody asked the worker to stop and epoll did not fail, the worker blocks again only after it has served every accepted notification, once and in order. |
| WakeUp.StepInv | include/transport/server/tcpip_linux.h:512-586 | Every step of handlers, stop and worker keeps the protocol invariant. |
| WakeUp.AloneServes | include/transport/server/tcpip_linux.h:562-586 | Left alone in any state with the invariant, the worker serves everything that is queued. |
| WakeUp.StopEndsTheLoop | include/transport/server/tcpip_linux.h:486-510 | Once stop refuses notifications the worker is never left waiting for good: alone, it comes to the end of its loop, so that it can be joined. |
| AcceptPipeline.Tcpip.OutstandingIsBounded | include/transport/server/tcpip_windows.h:1139-1176 | Outstanding accepts never exceed the depth of the pipeline, replacements included, and the counter is outstanding accepts plus completions being handled. |
| AcceptPipeline.Tcpip.PostAccept | include/transport/server/tcpip_windows.h:1139-1176 | Posts an accept only below the depth and while listening; the counter follows whether or not the system takes it. |
| AcceptPipeline.Tcpip.PostReplacement | include/transport/server/tcpip_windows.h:881-900 | A completed accept posts at most one replacement, without a look at the depth. |
| AcceptPipeline.Tcpip.ReplenishAcceptPipeline | include/transport/server/tcpip_windows.h:1126-1135 | The loop fills the pipeline to its depth and stops there, unless a post is refused or listening is over. |
| AcceptPipeline.Tcpip.FinishAccept | include/transport/server/tcpip_windows.h:844-853 | Every path through the handling of an accept gives its count back. |
| AcceptPipeline.Tcpip.RegisterContext | include/transport/server/tcpip_windows.h:857-866 | A new context is registered exactly when the transport is not stopping and the registry can take it. |
| AcceptPipeline.Tcpip.Call | include/transport/server/tcpip_windows.h:490-496 | Any public call on a registered context moves its life on as the registry assumes; one that retires with it is still registered. |
| AcceptPipeline.Perform | include/transport/server/tcpip_windows.h:133-496 | Every public method of the context keeps it valid and is a step of its life. |
| AcceptPipeline.Tcpip.RetireContext | include/transport/server/tcpip_windows.h:870-877 | A context that has retired is removed from the registry in a section of its own. |
| AcceptPipeline.Tcpip.BeginStop | include/transport/server/tcpip_windows.h:623-689 | From here on nothing is posted or registered; the registered contexts are those to be aborted. |
| AcceptPipeline.Tcpip.WaitPasses | include/transport/server/tcpip_windows.h:623-689 | The condition that stop waits for holds exactly when no accept is outstanding or being handled, every context ever registered is retired with no operation in flight, and none is between its retirement and its removal. |
| AcceptPipeline.Tcpip.Stop | include/transport/server/tcpip_windows.h:623-689 | The whole of stop comes to an end: whatever calls come in between, and in whatever order and with whatever results the operations in flight complete, the wait passes and nothing is left in the hands of the system, of a worker or of the registry. |
| AcceptPipeline.Tcpip.Drain | include/transport/server/tcpip_windows.h:663-668 | Aborting the registered contexts and letting what is in flight complete empties the pipeline and the registry. |
| AcceptPipeline.Tcpip.Advance | include/transport/server/tcpip_windows.h:663-668 | Whatever goes on, less is in flight afterwards, and a closed context stays closed. |
| AcceptPipeline.Tcpip.IsBusyOrPasses | include/transport/server/tcpip_windows.h:666-668 | With all contexts closed, the wait does not pass only while something is in flight or waits to be removed. |
| HttpText.DecimalRoundTrip | include/protocol/http/v11/response.h:168-170 | A number written as a field value reads back as the same number. |
| HttpText.IEqualsAgrees | include/protocol/http/v11/response.h:621-627 | Names that are equal in any case are interchangeable. |
| HttpText.EqualsInAnyCase | include/protocol/http/v11/response.h:613-627 | The comparison through lower case holds exactly when the lengths agree and at every place there is the same character, or letters at the same place in the two alphabets. |
| HttpText.SameLetterByLower | include/protocol/http/v11/response.h:613-617 | Two characters have the same lower case exactly when they are the same or such letters. |
| HttpText.DecimalDigits | include/protocol/http/v11/response.h:168-170 | A number is written with the digits of the table, its last digit last and without a zero in front. |
| HttpText.HexIsRead | include/protocol/http/v11/body/framer_chunked.h:405-416 | A hex digit from either table is read as its place there. |
| HttpText.TcharByDelimiters | include/protocol/http/common/helpers.h:247-283 | The characters of a token are the visible ones but the delimiters. |
| HttpText.UriCharacters | include/protocol/http/common/helpers.h:285-315 | The unreserved characters and sub-delimiters are the visible ones but the gen-delims, "%" and those that no URI has. |
| HttpText.CtextRanges | include/protocol/http/common/helpers.h:388-407 | The text of a comment is the ranges of its grammar rule. |
| Framers.QdtextByExclusion | include/protocol/http/common/helpers.h:352-370 | The text of a quoted string is the field characters but quote and backslash. |
| Response.Response.ScanLine | include/protocol/http/v11/response.h:636-662 | The scan from the start of a line stops at the colon behind its name and at the CR behind its value. |
| Response.Response.FindHeader | include/protocol/http/v11/response.h:636-662 | The scan over the bytes finds the first field whose name has the same letters, in any case, at its place, and nothing if the list has none. |
| Response.Response.HasHeader | include/protocol/http/v11/response.h:227-230 | Agrees with the list of fields. |
| Response.Response.GetHeader | include/protocol/http/v11/response.h:239-245 | The value of the first field of that name. |
| Response.Response.GetHeaderAt | include/protocol/http/v11/response.h:253-276 | The i-th field of the list, or none beyond its end. |
| Response.Response.GetHeadersLength | include/protocol/http/v11/response.h:283-299 | The number of fields in the list. |
| Response.Response.AddHeader | include/protocol/http/v11/response.h:127-162 | Appends to the list, or fails without a change when name or value is malformed or the line and the two bytes behind the block do not fit. |
| Response.Response.SetHeader | include/protocol/http/v11/response.h:174-211 | Replaces the value of the first field of that name in place or appends; fails exactly when the growth does not fit. |
| Response.Response.ReplaceValue | include/protocol/http/v11/response.h:174-211 | Moving the tail and copying the value over leaves the bytes of the list with that value replaced. |
| Response.Response.RemoveHeader | include/protocol/http/v11/response.h:308-317 | Deletes the first field of that name, if there is one. |
| Response.Response.RemoveLine | include/protocol/http/v11/response.h:308-317 | Moving the tail over a line leaves the bytes of the list without that field. |
| Response.Response.Status | include/protocol/http/v11/response.h:666-693 | A status helper forgets fields, body and writer and announces an empty body, unless the status is 1xx, 204 or 304; it fails exactly when line and announcement do not fit. |
| Response.Response.SetBody | include/protocol/http/v11/response.h:326-344 | Keeps a small body in memory or hands a large one to a writer, and announces its length; fails exactly when the store fails or the length field does not fit behind the other fields, after dropping the old body. |
| Response.Response.SetBodyWriter | include/protocol/http/v11/response.h:354-359 | Adopts a writer and announces it as chunked or by its length; fails exactly when that field does not fit. |
| Response.Response.ClearBody | include/protocol/http/v11/response.h:382-388 | Takes away the body and both framing fields. |
| Response.Response.Serialize | include/protocol/http/v11/response.h:75-123 | Status line, the fields that the status allows, the empty line, and the body, which 1xx, 204 and 304 do not have; it fails only if the Date field does not fit. |
| Response.WhatStatusOmits | include/protocol/http/v11/response.h:75-123 | 1xx and 204 go without both framing fields, 304 without Transfer-Encoding, everything else with all its fields. |
| Response.Response.DateTakesSpace | include/protocol/http/v11/response.h:75-123 | With the Date field in place the block is not empty and its end is free, so the space check of serialize never fires. |
| Response.LaidAdd | include/protocol/http/v11/response.h:127-162 | Bytes appended behind the block are one more field of the list. |
| Response.LaidSet | include/protocol/http/v11/response.h:174-211 | A memmove of the tail and a memcpy of the value are the replacement in the list. |
| Response.LaidRemove | include/protocol/http/v11/response.h:308-317 | A memmove of the tail is the deletion from the list. |
| HeaderList.PlacedField | include/protocol/http/v11/response.h:636-662 | Where a list is laid out in a buffer, each field can be read off at its place, with no earlier colon or CR. |
| HeaderList.PlacedSet | include/protocol/http/v11/response.h:174-211 | Replacing the bytes of a value replaces it in the list that is laid out there. |
| HeaderList.PlacedRemove | include/protocol/http/v11/response.h:308-317 | Taking out the bytes of a line takes the field out of the list. |
| HeaderList.ValuesAfterSet | include/protocol/http/v11/response.h:174-211 | Setting a field replaces its first value, or adds one, and leaves every other name alone. |
| HeaderList.ValuesAfterRemove | include/protocol/http/v11/response.h:308-317 | Removing a field drops its first value only, and leaves every other name alone. |
| HeaderList.HasAfterRemove | include/protocol/http/v11/response.h:308-317 | What else is present stays present. |
| Framing.StepFramed | include/protocol/http/v11/response.h:326-388 | Every status helper, body call and foreign field edit keeps at most one framing field, which tells the truth about the body. |
| Framing.HistoryFramed | include/protocol/http/v11/response.h:326-388 | So does every history that begins with a status helper and leaves framing to the helpers. |
| Framing.SerializedFraming | include/protocol/http/v11/response.h:75-123 | What then goes on the wire has at most one of Content-Length and Transfer-Encoding; a length reads back as the number of body bytes sent, from memory or streamed, when the status allows a body; a coding only with a chunked writer; 1xx and 204 have neither; 304 has no transfer coding. |
| Framing.Perform | include/protocol/http/v11/response.h:326-388 | The response object follows the history, call by call. |
| Framing.AllowIsLost | include/protocol/http/v11/server.h:118-128 | The Allow field that the router sets does not survive the status helper that the server calls for 405. |
| Server.HeadKeepsFields | include/protocol/http/v11/server.h:85-109 | A HEAD answer has the same values under every name as the response it stands for, exactly when no framing field was there twice. |
| Server.HeadFieldsValues | include/protocol/http/v11/server.h:85-109 | What becomes of every field: a second value of a framing field is overwritten by the first, everything else is kept. |
| Server.HeadFits | include/protocol/http/v11/server.h:85-109 | Restoring the framing fields of a HEAD answer cannot run out of space, whatever fields there are. |
| Server.Send | include/protocol/http/v11/server.h:85-109 | Only the Connection field can fail to fit; a HEAD answer loses its body and has its framing fields restored, for any response. |
| Server.Dispatch | include/protocol/http/v11/server.h:110-130 | A request without a route becomes a 404 or a 405 exactly as the router says, unless the Allow field with the methods that have a route, or the status line, does not fit; and the 405 has no Allow field although the router has set it. |
| IpAddress.SkipNHextets | include/protocol/http/common/helpers.h:635-656 | The number of hextets of a well-formed list, none for empty text, and -1 for everything else. |
| IpAddress.DecOctetBefore | include/protocol/http/common/helpers.h:681-699 | The positional check accepts exactly the dec-octets among runs of digits. |
| IpAddress.IsIpV4Address | include/protocol/http/common/helpers.h:851-872 | Accepts exactly four dec-octets separated by dots. |
| IpAddress.IsIpV6Address | include/protocol/http/common/helpers.h:785-844 | Accepts exactly the nine alternatives of the IPv6address rule of RFC 3986. |
| IpAddress.ListIsCounted | include/protocol/http/common/helpers.h:635-656 | However a list of items is derived, reading from the left finds it, so its length is unique. |
| IpAddress.TailByDot | include/protocol/http/common/helpers.h:785-844 | n groups and the last 32 bits are n + 2 hextets, or n hextets, a colon and an IPv4 address. |
| IpAddress.CompressedByCount | include/protocol/http/common/helpers.h:785-844 | The eight alternatives with "::" come down to counts: at most seven hextets, or five in front of an IPv4 address. |
| IpAddress.TwoDoubleColons | include/protocol/http/common/helpers.h:785-844 | No address has two "::", overlapping ones included. |
| UriReference.CheckUriReference | include/protocol/http/common/helpers.h:2162-2236 | Accepts exactly the texts that some well-formed record of components is written as: URI-reference, or absolute-URI / partial-URI when fragments are not allowed. |
| UriReference.SplitCompose | include/protocol/http/common/helpers.h:2162-2236 | The components of a well-formed reference can be read back from its text. |
| UriReference.ComposeSplit | include/protocol/http/common/helpers.h:2162-2236 | Every text is what its own components are written as. |
| UriReference.ReferenceBySplit | include/protocol/http/common/helpers.h:2162-2236 | A text is a reference exactly when the components it is cut into are well formed. |
| UriReference.Unambiguous | include/protocol/http/common/helpers.h:2162-2236 | No two records of components are written as the same text. |
| UriReference.PathMeaning | include/protocol/http/common/helpers.h:2190-2207 | The character loop and the colon check together accept exactly the path rules that fit scheme and authority. |
| UriReference.AbEmptyIsRun | include/protocol/http/common/helpers.h:2191-2199 | Segments between slashes are one run that may contain slashes. |
| UriReference.PathFromIsRun | include/protocol/http/common/helpers.h:2190-2207 | path-rootless, and path-noscheme with its colon-free first segment, are such runs. |
| UriReference.CheckPath | include/protocol/http/common/helpers.h:2190-2207 | The scan over the path, with the check on its first segment. |
| UriReference.CheckQueryAndFragment | include/protocol/http/common/helpers.h:2208-2235 | The scan over query and fragment accepts exactly these. |
| UriReference.ScanText | include/protocol/http/common/helpers.h:2191-2199 | The loop up to a delimiter accepts exactly runs of the allowed characters and pct-encoded triplets. |
| UriReference.CheckUriAuthority | include/protocol/http/common/helpers.h:2131-2140 | Accepts exactly [ userinfo "@" ] host [ ":" port ]. |
| UriReference.AuthorityByAt | include/protocol/http/common/helpers.h:2131-2140 | Cutting at the first "@" decides. |
| UriReference.CheckHostPort | include/protocol/http/common/helpers.h:2075-2092 | Accepts exactly host [ ":" port ], and exposes the parts and the kind of host. |
| UriReference.HostPortBySplit | include/protocol/http/common/helpers.h:2260-2275 | Cutting at the first "]" or ":" decides. |
| UriReference.SplitAuthorityHostPort | include/protocol/http/common/helpers.h:2260-2275 | The host is what is in front of the index where the colon has to be. |
| UriReference.CheckUriHost | include/protocol/http/common/helpers.h:1862-1873 | The kind of host, unknown exactly for what is none. |
| UriReference.IsIpLiteralText | include/protocol/http/common/helpers.h:879-889 | Accepts exactly a bracketed IPv6 or future address. |
| UriReference.IsIpVFuture | include/protocol/http/common/helpers.h:744-767 | Accepts exactly the IPvFuture rule. |
| UriReference.IsRegName | include/protocol/http/common/helpers.h:896-911 | Accepts exactly the reg-name rule. |
| UriReference.IsPortText | include/protocol/http/common/helpers.h:663-670 | Accepts exactly runs of digits. |
| UriReference.CheckUriUserinfo | include/protocol/http/common/helpers.h:2036-2049 | Accepts exactly the userinfo rule. |
| UriReference.IsUriScheme | include/protocol/http/common/helpers.h:1888-1897 | Accepts exactly the scheme rule. |
| UriReference.ConsumeUriScheme | include/protocol/http/common/helpers.h:1910-1918 | A scheme is there exactly when what is in front of the first colon is one. |
| Comment.ConsumeComment | include/protocol/http/common/helpers.h:1066-1095 | The depth counter returns the one prefix that the recursive comment grammar derives, and nothing exactly when there is none. |
| Comment.ItemsAreSkipped | include/protocol/http/common/helpers.h:1066-1095 | Whatever the grammar derives between parentheses leaves the depth as it was. |
| Comment.SkippedAreItems | include/protocol/http/common/helpers.h:1066-1095 | Whatever is passed until a parenthesis closes more than was opened has a derivation. |
| PercentDecode.PercentDecodeInPlace | include/protocol/http/common/helpers.h:1996-2028 | The two-pointer pass leaves the recursive decoding of the region, and every byte outside it unchanged. |
| PercentDecode.PercentDecodeValidate | include/protocol/http/common/helpers.h:1950-1971 | Rejects exactly the text that has a triplet for NUL. |
| PercentDecode.NulTripletMeansNul | include/protocol/http/common/helpers.h:1950-1971 | For text without a NUL of its own, that is the check on the decoded text. |
| PercentDecode.DecodeEncode | include/protocol/http/common/helpers.h:1996-2028 | Decoding undoes every way of encoding: any byte but "%" as it is or as a triplet, with hex digits in either case. |
| PercentDecode.TripletIsRead | include/protocol/http/common/helpers.h:1996-2028 | The triplet of a byte, with digits from either table, is read as that byte. |
| RequestObject.RequestObject.constructor | include/protocol/http/v11/request.h:319-358 | The copied request keeps the text of every view other than the path, its path is the decoded one, and what is absent reads as empty or unknown. |
| RequestObject.HeadViewsApart | include/protocol/http/v11/request.h:319-358 | Every view of an accepted head lies within it and apart from its path. |
| RequestObject.PathHasNoNul | include/protocol/http/v11/request.h:319-358 | The decoded path of an accepted request has no NUL. |
| RequestObject.RequestObject.TextsKept | include/protocol/http/v11/request.h:319-358 | A list of names and values that is clear of the path reads in the copy as it did. |
| RequestObject.MountRequest | include/protocol/http/v11/decoder.h:487-529 | From an accepted head to the object: it says what the text of the head says. Method, header fields, the first 128 pairs of the query, target host and port and the kind of that host are those that the text is written from, and the path is the decoded one and has no NUL. |
| QueryParameters.SplitQueryParameters | include/protocol/http/common/helpers.h:2768-2796 | The views handed out are the pairs of the query in order, without the empty ones and as many as there is room for. |
| QueryParameters.PairsOfWritten | include/protocol/http/common/helpers.h:2753-2766 | Pairs written as key, "=" and value, or as the key alone when there is no value, with "&" between them are read again, in order. |
| QueryParameters.PairsJoin | include/protocol/http/common/helpers.h:2757-2761 | The pairs of two queries joined by "&" are those of the one and then those of the other, whatever is empty. |
| HeadParser.ParseHead | include/protocol/http/v11/decoder.h:195-464 | The loops read what HeadAt says: method, target, version, header fields, and the verdict of the rules. |
| HeadGrammar.HeadExactly | include/protocol/http/v11/decoder.h:192-464 | The first n bytes are an accepted head that says a method, a target with path, query, scheme, host and port, the fields and the framing exactly when they are the text of one that says so (method SP target SP HTTP/1.1 CRLF, field lines with white space around their values, CRLF), for which the interpreters and rules are met and whose path has no NUL. |
| HeadGrammar.BlockIsLines | include/protocol/http/v11/response.h:127-162 | The field block of a response, with its empty line, is a header section of the same grammar and says its fields, if no value has white space around it. |
| TargetViews.TargetShows | include/protocol/http/v11/decoder.h:220-270 | The views of a target up to a space show these texts exactly when they are what the target says: path and query, and scheme, host and port of the authority, of the components it is written from, and empty where there are none. |
| TargetViews.SaidIsShown | include/protocol/http/v11/decoder.h:220-270 | Whatever way a target is composed of components, the views show these. |
| TargetViews.AuthorityShows | include/protocol/http/common/helpers.h:2510-2560 | Behind any user information, the views of host and port are those that the authority is written from. |
| HeadGrammar.FieldIsRead | include/protocol/http/v11/decoder.h:195-464 | A field line with any white space around its value is read as its name and its bare value. |
| HeadGrammar.FieldIsLine | include/protocol/http/v11/decoder.h:195-464 | Whatever is read as a field is such a line. |
| HeadParser.ParseFields | include/protocol/http/v11/decoder.h:349-458 | The loop with its flag reads header lines one after the other up to the empty line. |
| HeadParser.ParseValue | include/protocol/http/v11/decoder.h:427-446 | The rest of a header line: value without surrounding white space, CRLF. |
| HeadParser.OwsTrim | include/protocol/http/common/helpers.h:605-628 | White space is taken off at both ends. |
| HeadParser.ParseVersion | include/protocol/http/v11/decoder.h:287-329 | SP, HTTP/1.1 and CRLF, rejecting as soon as a byte cannot fit. |
| HeadParser.ParseTarget | include/protocol/http/v11/decoder.h:220-270 | Which form is tried depends on the method and the first character. |
| HeadParser.TryToDeserializeAsAuthorityForm | include/protocol/http/common/helpers.h:2306-2341 | uri-host ":" port, with the views of both. |
| HeadParser.TryToDeserializeAsOriginForm | include/protocol/http/common/helpers.h:2366-2389 | absolute-path [ "?" query ], with the views of both; what these show is in TargetViews.TargetShows. |
| HeadParser.TryToDeserializeAsAbsoluteForm | include/protocol/http/common/helpers.h:2462-2607 | scheme ":" hier-part [ "?" query ] as the function reads it, partial data included; what its views show is in TargetViews.TargetShows. |
| HeadParser.TryToDeserializeAsAbsolutePath | include/protocol/http/common/helpers.h:2622-2648 | A slash and a run of path characters. |
| HeadParser.TryToDeserializeAsQuery | include/protocol/http/common/helpers.h:2662-2684 | A run of query characters. |
| HeadParser.CheckUserinfo | include/protocol/http/common/helpers.h:2524-2540 | Skipping over checked triplets accepts exactly the userinfo rule. |
| HeadParser.ConsumeToken | include/protocol/http/common/helpers.h:1000-1011 | The longest run of token characters. |
| HeadStability.HeadStable | include/protocol/http/v11/decoder.h:195-464 | With more bytes a complete head stays what it is, a rejection stays one unless a NUL is pending in the path or the authority at the end of the data was judged too early, and what needed more bytes is not complete before they have come. |
| HeadStability.HeadIsComplete | include/protocol/http/v11/decoder.h:195-464 | A head is complete as soon as its last byte is there, and says then what it says with any bytes behind it. |
| HeadStability.OriginFormStable | include/protocol/http/common/helpers.h:2366-2389 | What the origin-form parser reports stays, once it does not lean on the end of the data. |
| HeadStability.AuthorityFormStable | include/protocol/http/common/helpers.h:2306-2341 | So does what the authority-form parser reports. |
| HeadStability.FieldsStable | include/protocol/http/v11/decoder.h:349-458 | So does what the header loop reports, whatever the interpreters and rules. |
| HeadStability.NulPendingStays | include/protocol/http/v11/decoder.h:277-286 | A NUL that the path loop has passed, in origin or absolute form, is still passed when more bytes have come. |
| HeadStability.DoomedHeadStays | include/protocol/http/common/helpers.h:2462-2607 | A head with such a NUL, or with a bad host or port in front of any "@", stays hopeless while its user information passes for a host and a port. |
| HeadStability.BrokenIsRejected | include/protocol/http/common/helpers.h:2462-2607 | A bad user information, host or port never makes a complete target, and is rejected when the data ends behind it. |
| AbsoluteForm.AbsoluteFormStable | include/protocol/http/common/helpers.h:2462-2607 | What the absolute-form parser reports stays, once it does not lean on the end of the data; only the rejection of an authority that runs to the end of the data may not. |
| AbsoluteForm.BadAuthorityStays | include/protocol/http/common/helpers.h:2462-2607 | A rejected authority stays rejected with more text, unless what was there turns out to be user information. |
| AbsoluteForm.BadHostPortStays | include/protocol/http/common/helpers.h:2260-2275 | A rejected host or port stays rejected with more text behind it. |
| Rejection.RejectionIsFinal | include/protocol/http/v11/decoder.h:195-286 | When the rejection of a head is final, exactly, over all heads and all that may follow: unless the target, or the authority in it, runs to the end of the data. |
| Rejection.PercentReopens | include/protocol/http/common/helpers.h:2462-2607 | In that case a further "%" makes the decoder ask for more bytes of a head it has just rejected. |
| Rejection.UserinfoReopens | include/protocol/http/common/helpers.h:2510-2560 | Which rejected heads can still get an acceptable target, exactly: those that end in an authority without "@" that is well-formed user information. |
| Rejection.PlainNeverRejected | include/protocol/http/common/helpers.h:2510-2560 | Which complete heads are not rejected at any point of their way, exactly: those whose user information, if any, would pass for a host and a port. |
| EndlessHead.WaitsForEver | include/protocol/http/common/helpers.h:2510-2560 | No bytes can ever complete a head or have it rejected, exactly when its authority is over and opens a bracket that it does not close; for all rules. |
| EndlessHead.UnclosedWaits | include/protocol/http/common/helpers.h:2541-2545 | Such a head makes the decoder ask for more bytes whatever follows it. |
| EndlessHead.WaitsForABracket | include/protocol/http/common/helpers.h:2541-2545 | `GET h://[x ` is such a head. |
| EndlessHead.AuthorityMoreOnText | include/protocol/http/common/helpers.h:2510-2560 | The authority in the middle of a target asks for more bytes exactly when, behind well-formed user information if there is any, it opens a bracket that it does not close. |
| Rejection.PasswordLooksLikeAPort | include/protocol/http/common/helpers.h:2510-2560 | `GET h://u:p` is rejected, and what there is may be user information. |
| Rejection.PasswordIsAPassword | include/protocol/http/common/helpers.h:2510-2560 | The same bytes and `@h HTTP/1.1` behind them are not rejected. |
| Rejection.BadPortStaysBad | include/protocol/http/common/helpers.h:2510-2560 | `GET h://u@h:p` is rejected, with a "%" behind it more bytes are asked for, and no target can come of it. |
| Rejection.NulIsSeenTooEarly | include/protocol/http/v11/decoder.h:277-286 | `GET /%00` is rejected, and `GET /%00%` is not. |
| TargetGrammar.TargetOnText | include/protocol/http/v11/decoder.h:220-270 | Exactly which texts in front of a space are taken for a target: origin-form, absolute-form, authority-form and asterisk-form of section 3.2 of RFC 9112, as method and first character call for, and absolute forms with more behind an IP-literal. |
| TargetGrammar.AcceptedTarget | include/protocol/http/v11/decoder.h:220-345 | So the target of every accepted head is one of these, with a space behind it. |
| TargetGrammar.OriginOnText | include/protocol/http/common/helpers.h:2366-2389 | Accepts exactly absolute-path [ "?" query ]. |
| TargetGrammar.AuthorityFormOnText | include/protocol/http/common/helpers.h:2306-2341 | Accepts exactly uri-host ":" port. |
| TargetGrammar.AbsoluteOnText | include/protocol/http/common/helpers.h:2462-2607 | Accepts exactly absolute-URI, and the texts with more behind an IP-literal. |
| TargetGrammar.LooseIsOutside | include/protocol/http/common/helpers.h:2541-2560 | These are no URI references at all. |
| TargetGrammar.LooseExample | include/protocol/http/common/helpers.h:2541-2560 | `h://[v1.a]x` is one of them. |
| Framers.WriteRaw | include/protocol/http/v11/body/framer_raw.h:65-83 | Takes the bytes that the length still asks for; when the body store fails none are taken, and none are ever after. |
| Framers.WriteChunked | include/protocol/http/v11/body/framer_chunked.h:101-399 | Taking chunk data in bulk is the same as the automaton over single bytes, which takes exactly the encodings of messages (ChunkedGrammar.CompletesExactly); a body store that fails breaks the framing at or in front of the byte it cannot take. |
| Framers.FeedConcat | include/protocol/http/v11/body/framer_chunked.h:101-399 | Input in two pieces is input in one piece, for both framers. |
| Framers.RawTakesItsLength | include/protocol/http/v11/body/framer_raw.h:65-83 | A Content-Length takes exactly as many bytes as it says. |
| ChunkedBodies.HexTextIsRead | include/protocol/http/v11/body/framer_chunked.h:405-416 | Every number, written in hex digits from the tables in any mix of cases, is what the grammar takes the size for. |
| ChunkedBodies.DigitIsPlace | include/protocol/http/v11/body/framer_chunked.h:405-416 | The digit that the framer computes from a character is its place in the table. |
| ChunkedBodies.ChunkedBodyEndsInPlace | include/protocol/http/v11/body/framer_chunked.h:101-399 | Whatever follows it, however its sizes are spelled, with any chunk extensions and trailer fields of section 7.1 of RFC 9112 up to the limits, and with white space behind the last extension, a chunked body is complete exactly behind its own last byte. |
| ChunkedBodies.WalkExtension | include/protocol/http/v11/body/framer_chunked.h:101-399 | The states of the extension grammar take every extension and are ready for the next, or for the end of the line. |
| ChunkedBodies.WalkTrailer | include/protocol/http/v11/body/framer_chunked.h:101-399 | The states of the trailer take every trailer section to completion. |
| ChunkedGrammar.CompletesExactly | include/protocol/http/v11/body/framer_chunked.h:101-399 | The framer completes a body behind k bytes exactly when these are the encoding of a message: chunks, last chunk and trailer section within the limits. |
| ChunkedGrammar.TakeMessage | include/protocol/http/v11/body/framer_chunked.h:101-399 | Whatever the framer takes to its end can be read back as a message. |
| ChunkedGrammar.TakeExtensions | include/protocol/http/v11/body/framer_chunked.h:101-399 | Whatever its stages take to the end of a size line is a list of extensions. |
| ChunkedGrammar.TakeTrailer | include/protocol/http/v11/body/framer_chunked.h:101-399 | Whatever its stages take to completion is a trailer section. |
| Delivery.ServeWith | include/protocol/http/v11/decoder.h:178-190 | Serving bytes in two pieces is serving them in one, requests and end alike. |
| Delivery.ConsumeAgrees | include/transport/server/tcpip_linux.h:687-706 | A delivery of any size, through a buffer of any filling, is served as the final verdicts on all bytes so far say, or what is left is lost for good. |
| Delivery.CutsDoNotMatter | include/transport/server/tcpip_linux.h:687-706 | For any sound reading of heads and bodies: the requests of a stream without a disputed head are the same however it is cut. |
| Delivery.CutsMatterExactly | include/transport/server/tcpip_linux.h:687-706 | For any sound reading and every stream: the cut shows exactly when a complete head in it would be rejected at some earlier point of its way, and not its body anyway, or when such a head is left unfinished. |
| Delivery.ReceiveConserves | include/protocol/http/v11/decoder.h:167-174 | Bytes handed out and bytes held are the bytes received, whatever the cut. |
| Delivery.ReceiveCloses | include/transport/server/tcpip_linux.h:710-775 | However the bytes of a connection arrive, nothing is served behind a request that closes it, and serving is closed by nothing else. |
| Delivery.FullIsRejected | include/transport/server/tcpip_linux.h:691-702 | A full buffer without a complete head is rejected with the next byte. |
| Reception.ReadingIsSound | include/protocol/http/v11/decoder.h:195-464 | The heads and bodies of this decoder are read soundly, whatever the interpreters and rules. |
| Reception.RequestsDoNotDependOnCuts | include/protocol/http/v11/decoder.h:167-464 | The requests of a stream are the same however its bytes arrive, and so is the end but for a suspect head that is unfinished; for every stream in which no complete head has user information that would not pass for a host and a port. |
| Reception.WhenTheCutShows | include/protocol/http/v11/decoder.h:277-286 | When the cut shows, exactly, for every stream: when a complete head has such user information and its body is not broken, or when the stream in one piece leaves the decoder waiting for a suspect head. |
| Reception.NoticedOnText | include/protocol/http/common/helpers.h:2510-2560 | Which heads that are not rejected would have been rejected with less of them there: those with a NUL in what is there of the path, an authority that is bad as it stands, or user information that would not pass for a host and a port. |
| Reception.NoByteIsLost | include/protocol/http/v11/decoder.h:167-483 | For every stream and every cut: as long as the decoder waits, what it has handed out and what it holds is what it was given. |
| Decoder.Decoder.Accumulate | include/protocol/http/v11/decoder.h:167-174 | Takes what fits, in order. |
| Decoder.Decoder.Shift | include/protocol/http/v11/decoder.h:525-528 | The memmove leaves the bytes that were not used. |
| Decoder.Decoder.Deserialize | include/protocol/http/v11/decoder.h:178-189 | For all bytes received so far: a rejection when no head can be read; the request with as many body bytes as the length says, and everything behind them left; the request with a body that is the encoding of a message; or more bytes needed with nothing taken away, and then no such body is there. Also one step of the specification, and an interim response exactly when a head that expects one has just begun its body. |
| Decoder.Decoder.ParseCore | include/protocol/http/v11/decoder.h:195-464 | The same on a head. |
| Decoder.Decoder.ParseBody | include/protocol/http/v11/decoder.h:468-483 | The same on a body, however much of it had come before. |
| Answers.BodyAnswers | include/protocol/http/v11/decoder.h:468-483 | A step of the specification on a body answers for all bytes of its request in that way. |
| Answers.HeadAnswers | include/protocol/http/v11/decoder.h:195-464 | So does a step on a head. |
| Answers.LengthAnswers | include/protocol/http/v11/body/framer_raw.h:65-83 | A body under way by its length is complete exactly when that many bytes have come, and takes no more. |
| Answers.ChunksAnswer | include/protocol/http/v11/body/framer_chunked.h:101-399 | A body under way in chunks is complete when what was taken is the encoding of a message, waits when none is there yet, and is rejected when none can come of it. |
| Decoder.HandleDeserializedRequests | include/transport/server/tcpip_linux.h:710-775 | Takes out all requests up to one that closes, a malformed one, or the need for more bytes; if a handler fails or the connection is closed on the way, the first of them, and then as many as there were turns. |
| Decoder.ConsumeReceived | include/transport/server/tcpip_linux.h:687-706 | Feeds a delivery of any size through the buffer; if the connection is given up on the way, what came out is the front part of what would have. With more turns than requests and bytes it is not given up. |
| RoutePattern.GetParameters | include/protocol/http/common/helpers.h:2705-2749 | Succeeds exactly when the path matches the pattern segment by segment, with the values of its parameters. |
| RoutePattern.ParametersRebuildPath | include/protocol/http/common/helpers.h:2705-2749 | Putting the captured values back into the pattern gives the path again, up to the slashes around it. |
| RoutePattern.MatchesInstances | include/protocol/http/common/helpers.h:2705-2749 | A path matches and has these parameters exactly when it is the pattern with these values, one nonempty segment each, in place of the parameters. |
| RoutePattern.NameIsRead | include/protocol/http/common/helpers.h:2705-2749 | A parameter is written with a colon in front of its name, and may have one behind it. |
| RoutePattern.CoreIs | include/protocol/http/common/helpers.h:2705-2749 | The slashes around a pattern or a path are no segments. |
| RoutePattern.SplitJoin | include/protocol/http/common/helpers.h:2705-2749 | Segments joined with slashes are split into these again. |
| RoutePattern.JoinSplit | include/protocol/http/common/helpers.h:2705-2749 | Segments joined with slashes are the text they were split from. |
| RoutePattern.MatchSegments | include/protocol/http/common/helpers.h:2705-2749 | The loop compares segment by segment. |
| Router.Router.Add | include/protocol/http/common/router.h:75-106 | Appends to the routes of the method in the right table, or refuses a misplaced asterisk; no other route changes. |
| Router.Router.Match | include/protocol/http/common/router.h:112-234 | The first route that applies, static before parametrised before wildcard; it goes unanswered exactly when it runs in the pool and the pool has been stopped, or its parameters do not parse there; otherwise exactly the other methods with a route for the path, without duplicates and joined in the Allow field. |
| Router.Find | include/protocol/http/common/router.h:112-234 | The first route of the method that applies. |
| Router.CollectAllowed | include/protocol/http/common/router.h:112-234 | Exactly the other methods that have an applicable route, each once. |
| Router.AddAllowedMethod | include/protocol/http/common/router.h:195-201 | Adds a method that is not there yet. |
| Router.AddTo | include/protocol/http/common/router.h:257-272 | A route goes behind those of its method. |
| Router.Check | include/protocol/http/common/router.h:131-165 | Whether a route is for a path, with its parameters. |
| Router.WildcardOnText | include/protocol/http/common/router.h:335-337 | A route with an asterisk is for exactly what stands in front of it with anything behind. |
| Router.PatternOnText | include/protocol/http/common/router.h:131-165 | A parametrised route applies exactly to the instances of its pattern whose values parse, or whose handler runs in the pool. |
| Router.AllowIsRead | include/protocol/http/common/router.h:227-233 | Read as a list with commas, the Allow field gives the methods back, each once and in order. |
| Router.AllowFromFront | include/protocol/http/common/router.h:227-233 | The Allow field is the methods with a comma and a space between two. |
| Router.FirstIsFirst | include/protocol/http/common/router.h:116-136 | The route that is found is the one in front of which none applies. |
| Router.UnansweredInThePool | include/protocol/http/common/router.h:153-164 | A router, a route and a path for which nothing is ever sent. |
| Router.NotFoundAtOnce | include/protocol/http/common/router.h:143-150 | The same route, called at once, is skipped, and the request is not found. |
| Router.WildcardByPosition | include/protocol/http/common/router.h:75-86 | The index check accepts exactly an asterisk that is the last segment and the only one. |
| Storage.ByteStorage.Write | include/common/byte_storage.h:96-114 | What was written is what it was with the bytes appended exactly unless unread bytes of the file are overwritten; in memory or in the file, also after reading and finishing; spills exactly when the threshold would be passed, and fails exactly when there was an error before or the file is needed and fails. |
| Storage.ByteStorage.SpillToFile | include/common/byte_storage.h:194-213 | Moving memory to the file keeps the bytes. |
| Storage.ByteStorage.Finish | include/common/byte_storage.h:118-129 | Fixes the number of bytes, whatever it is; a failed flush is an error. |
| Storage.ByteStorage.Read | include/common/byte_storage.h:85-92 | The next bytes in order, as many as are wanted and can be read; none of a file that is not finished, and none on a fault. |
| Storage.ByteStorage.ReadFile | include/common/byte_storage.h:233-242 | The same from the file. |
| Storage.ByteStorage.Fetch | include/common/byte_storage.h:133-139 | The next byte, or none at the end or on a fault. |
| Storage.ByteStorage.FetchFile | include/common/byte_storage.h:133-139 | The same from the file; a read that stops short of the announced end sticks. |
| Storage.PutAppends | include/common/byte_storage.h:96-114 | Writing to the file appends exactly when nothing is written or everything in it has been read. |
| Storage.ByteStorage.ExhaustedAtTheEnd | include/common/byte_storage.h:149-152 | The end is reported exactly when everything has been read, and never of a file that is not finished. |
| Storage.WritingOverwrites | include/common/byte_storage.h:96-114 | What is written to a file that has been read takes the place of bytes that are still to come. |
| Storage.Writer.Write | include/common/writer.h:63-67 | Appends and counts, or fails exactly when the storage does. |
| Storage.Writer.Finish | include/common/writer.h:83-86 | Announces how many bytes there are. |
| Storage.Writer.Release | include/common/writer.h:94-97 | Hands over the storage with everything that was written, readable unless there was a fault, finished only if it was not; the writer is left with an empty one. |
| Storage.Reader.Read | include/common/reader.h:95-109 | The next bytes, borrowed or owned; a fault of the file system is remembered. |
| Storage.Reader.Fetch | include/common/reader.h:113-122 | The next byte, borrowed or owned. |
| Storage.Reader.Eof | include/common/reader.h:126-129 | True exactly when nothing remains, and never of a file that is not finished. |
| Storage.Reader.ReadAll | include/common/reader.h:154-164 | Everything that remains, or everything up to the first fault. |
| Storage.SpillingIsTransparent | include/common/byte_storage.h:85-152 | For every threshold, every sequence of writes and every mix of requests: the bytes of the writes in order and once, and the end reported exactly when all have been got. |
| ThreadPool.ThreadPool.Start | include/common/thread_pool.h:64-89 | Starts the workers of a pool that is not running. |
| ThreadPool.ThreadPool.Enqueue | include/common/thread_pool.h:105-115 | A task is accepted exactly while the pool is running, behind all others. |
| ThreadPool.ThreadPool.Take | include/common/thread_pool.h:71-78 | A worker takes the oldest task, or returns when there are none and will be none. |
| ThreadPool.ThreadPool.Finish | include/common/thread_pool.h:79-86 | A task that is over is finished once, whether or not it threw. |
| ThreadPool.ThreadPool.BeginStop | include/common/thread_pool.h:93-98 | Nothing is accepted from here on; nothing accepted is dropped. |
| ThreadPool.ThreadPool.Join | include/common/thread_pool.h:93-100 | With all workers joined, every accepted task has run, once and started in order. |
| ThreadPool.ThreadPool.Stop | include/common/thread_pool.h:93-100 | Any order in which the workers get on comes to an end, with nothing left undone. |
| ThreadPool.InHandsAt | include/common/thread_pool.h:70-86 | What a worker puts down or picks up is all that changes in the hands of the workers. |

## Left out

- Sockets, epoll, IOCP and eventfd calls are steps of the environment: how much a send takes, whether it blocks or fails, and when completions arrive are arbitrary.
- Response ids and the eventfd counter are unbounded numbers; their wrap-around at 64 bits is not modelled.
- The C++ memory model and lock order are not modelled: every locked section is one atomic step.
- ReplySlots.ReadSource: the bytes of a source are fixed in advance; a read of more than was asked for is one way to fail, which only the Linux context checks.
- WindowsContext.Context.ArmNextReceiveOperation: for a context without a receive in flight, as the transport calls it behind an accept and behind the completion of the receive before.
- LinuxContext.Context.Service: handler calls may come between any two sections; input is modelled in `Decoder`, and the worker is the only thread that flushes and closes.
- WindowsContext.Context.SendFailed: the bytes of a failed send that may have reached the wire are not recorded as sent, because the system does not report them.
- Start and stop of the transports, listeners, console, signals, date server and environment set-up.
- The header interpreters (`v11/headers/*`), the transversal rules and the policies are functions of what they are shown; policy limits are always 0, as the context is reset before every parse, and are left out.
- Rejection reasons: only whether a head is rejected is modelled, not the reason code that goes with it.
- Reception.RequestsDoNotDependOnCuts: not for complete heads with user information that would not pass for a host and a port, which make the cut show; `Reception.WhenTheCutShows` is for all streams.
- The interim response for `Expect: 100-continue` is modelled in `Decoder.Decoder.Deserialize`; whether it is sent depends on the cut by design, so the theorems on cutting do not mention it.
- The contents of the error replies made for rejected requests and for failed handlers; what they do to the reply queue is modelled.
- WindowsContext.Respond: with nothing coming in between its calls; an exception comes in front of a turn of the pouring, and running out of memory between reading a source and keeping what was read is not modelled.
- Cookies, `get_query_parameter` and the other getters of the request are not modelled; `RequestObject.MountRequest` is given the views of host and port inside their fields.
- HeadParser.ParseHead: reads the buffer through indices where the source makes string views; the methods on targets share one scanning loop that the source writes out several times.
- Framers.WriteChunked: framers are values that are passed in and returned; the decoder is modelled for a body store that does not fail, and the decoding of chunks by body readers is not modelled.
- Response.Response.SetBody: the file or memory behind an adopted body writer is a sequence of bytes; a failing store is one outcome of the call.
- Response.Response.GetHeadersLength: the scan in the source looks for the CR from one byte further left than `find_header` does, which no well-formed block can tell apart.
- The other single-token header checkers of `helpers.h` are thin calls of the ones modelled here.
- Router.Router.Match: handlers are numbers, the Allow field is handed back (`Server.Dispatch` sets it), and whether parameters parse is a predicate.
- Storage.ByteStorage.Write: the spill file is a sequence of bytes with one position; path names, permissions and short writes are not modelled, and a read stops short only at the end of the file.
- ThreadPool.ThreadPool.Start: for a pool whose earlier workers have been joined; starting while another thread is still in stop() is a data race in the source.
