# Verified model of the MVR video streamer

The streamer takes video from a capture pipeline and hands it to RTSP and web-socket clients; small
side protocols configure it. This project models the parts of it that keep state over time and proves
what they promise, for every input and every run.

| part | modules |
|---|---|
| STP, a request/reply protocol over UDP: one endpoint, and whole networks of them | `Stp`, `StpNetwork` |
| The one-message publish/subscribe protocol "lws-minimal": its runs, and the linked list in the heap | `Broadcast`, `SessionList` |
| The bounded frame queue of the RTSP element and the pipe it feeds | `FrameQueue`, `LiveRtspServer`, `PipeWriter` |
| Element factories that initialise each other re-entrantly | `Factory` |
| The layout table: persistence, messages to and from web clients | `Layout`, `LayoutStore` |
| Printing of integers | `Decimal`, `CInt` |
| The settings file | `Settings` |
| Fan-out to web clients, pending counts and the frame-rate controller they drive | `Feedback`, `WebSocketServer`, `RateControl` |
| Shared types | `Wrappers`, `Bytes` |

Code that changes state in place is a class or a method with loops, proved equal to a step of a state
machine (`View() == Next(old(View()), event)`) or to a function of its input, and where a step is short its
effect also stands on the fields themselves; the properties of whole runs are lemmas about those machines. `dafny verify dfyconfig.toml` checks everything.

Choices that a reader should know:

- Threads: a section under a mutex is one step, the delivery outside it another, and the steps of all
  threads interleave freely. A frame is delivered or not by what `mRtspServer` is when the push thread
  reads it, after the frame was taken from the queue.
- Network: a datagram that `sendto` accepted may reach its destination never, once or often, in any
  order; anything that does not parse may arrive at any time. `recvfrom` chooses among these.
- Undefined operations and exceptions (division by zero, an index outside the table, a call through a
  null pointer) are results (`None`, `ok == false`), and the contracts say exactly when they occur.
- `std::map` order does not matter to any result: the settings file is printed in an arbitrary order.
- Fields or parameters called history (`cause`, `instance`, `got`, `trace`, `calls` and the like) only
  record what happened; no modelled code reads them.

Results where the code does less than its purpose suggests. Each is stated with the exact condition:

- A client that reuses the UDP address of an earlier client may accept the reply to that client's
  request, because every client numbers from 1 (`SafeIffUnexposed`; `ForeignReplyIsAccepted` is such a run).
- After a message is dropped for lack of memory a session can end with nothing outstanding and the last
  stored message never sent (`WakeupsAreSafeIff`; `OutOfMemoryLosesWakeup` is such a run); without such
  a drop it cannot (`StoredRunsStrandNobody`), and the next stored message repairs it.
- Frames pushed after the shutdown drain are accepted, up to ten, and never freed (`LateFramesAreNeverFreed`).
- Layout persistence uses -1 as "missing", which collides with row -1 of a negative number of columns and
  with -1 rows or columns (`PersistenceRoundTripIff`).
- `to_String` prints 0 as nothing and INT_MIN as a sign (`ParseUndoesTextIff`).
- A factory looked up before it registers can never register afterwards (`AvailableIffRegisteredFirst`).
- Equal pending counts reported again and again move the frame rate by at most one step unless they are
  zero (`SteadyFeedback`, `SteadyFeedbackReachesTopIff`).
- The server's answer to `onvif_list` holds one address of ten, since the list is reset inside the loop
  (`ComputeAnswer`).

Comments of the source that its code does not follow: the cached message is destroyed by the next
received one, not when everyone has had it (protocol_lws_minimal.c:50); `send` returns 0 or -1, never the
-2 announced for a text that is too long (STPManager.h:153-158).

## Model

| member | source | states |
|---|---|---|
| Stp.SkippedIsLongestPrefix | video-master/libcommon/STPManager.h:117-142 | a server discards nothing; a client discards exactly the longest prefix of parsable datagrams that are no replies under its number, and never passes a time-out or anything unparsable |
| Stp.StpManager.Recv | video-master/libcommon/STPManager.h:112-144 | for a client: succeeds iff some arrival is a reply under its number and all before it are parsable datagrams with another number, and then returns that one; fails at the first arrival that does not parse, a time-out included, or at the end; for a server: succeeds iff the first arrival parses, whose number it takes over; the out address is that of the last parsable datagram |
| Stp.StpManager.Send | video-master/libcommon/STPManager.h:159-185 | numbers grow by one even when `sendto` fails; no destination means no number used; the datagram carries exactly the new request number or the server's response number, never the caller's metadata |
| Stp.ComputeAnswer | video-master/libcommon/stp_util.cpp:26-44 | the answer to a list request carries only the last of the ten addresses |
| Stp.Parsable | video-master/libcommon/STPManager.h:122 | exactly the arrivals that parse, in order of arrival |
| Stp.RepliesAreCoherent | video-master/libcommon/stp_util.cpp:22-50 | reply k takes destination, number and body from parsable datagram k alone |
| Stp.Serve | video-master/libcommon/stp_util.cpp:22-50 | for any inbox and any `sendto` results the loop hands out exactly one such reply per parsable datagram, also after failed receives |
| Stp.Ask | video-master/libcommon/stp_util.cpp:58-65 | the client gets an answer iff an arrival is a reply under the number just used with only parsable datagrams of other numbers before it, and then that one, even if its send failed |
| StpNetwork.RunKeepsInv | video-master/libcommon/STPManager.h:112-185 | the invariant of datagrams, clients, server and acceptances survives every run |
| StpNetwork.ClientSendsKeepsInv | video-master/libcommon/STPManager.h:170-184 | a request keeps (client, number) naming one request |
| StpNetwork.ServerHearsKeepsInv | video-master/libcommon/STPManager.h:120-138 | an arrival at the server sets destination, number and request together or not at all |
| StpNetwork.ServerSendsKeepsInv | video-master/libcommon/STPManager.h:164-184 | a reply goes to the requester with the request's number and answer |
| StpNetwork.ClientHearsKeepsInv | video-master/libcommon/STPManager.h:128-133 | what a client accepts answers a request sent from its address under its present number |
| StpNetwork.OpenKeepsInv | video-master/libcommon/STPManager.h:41-44 | a new client, also at a used address, keeps the invariant |
| StpNetwork.AcceptedReplyMatches | video-master/libcommon/STPManager.h:129-133 | over all runs with loss, duplication, reordering and reused addresses, an accepted reply answers a request really sent from that address under the client's current number, and is the client's own iff it was sent since the client was opened |
| StpNetwork.AcceptedReplyIsOwn | video-master/libcommon/STPManager.h:112-185 | when no address is used twice, every accepted reply answers the accepting client's most recent request, never an older one or another client's |
| StpNetwork.ServerRepliesAreCoherent | video-master/libcommon/stp_util.cpp:24-45 | whatever failed before, a sent reply has destination, number and body of one received datagram |
| StpNetwork.RequestNumbersIncrease | video-master/libcommon/STPManager.h:172-174 | the next number exceeds all this client put on the wire, also after failed sends; (client, number) is unique |
| StpNetwork.UnexposedIsSafe | video-master/libcommon/STPManager.h:129-133 | without a pending request of an earlier client under a number to come, all later acceptances are the client's own |
| StpNetwork.ExposedCanFail | video-master/libcommon/STPManager.h:129-133 | with one, some continuation accepts a foreign reply |
| StpNetwork.ReuseExposes | video-master/libcommon/STPManager.h:41-44 | one request followed by another client at the same address leads to such a state, for every address and request |
| StpNetwork.ForeignReplyIsAccepted | video-master/libcommon/STPManager.h:112-185 | a legal run from the start, for every address and request, in which a client accepts a reply that is not its own |
| StpNetwork.ReplyGetsAccepted | video-master/libcommon/STPManager.h:112-185 | three steps take any request under a waiting client's number to the acceptance of its answer |
| StpNetwork.NextRequestCanBeAnswered | video-master/libcommon/stp_util.cpp:22-65 | after any run a client's next request can still be answered: a continuation ends with the acceptance of the answer to exactly that request |
| StpNetwork.SafeIffUnexposed | video-master/libcommon/STPManager.h:112-185 | in every reachable state a client is safe for good if and only if no such request is on the wire |
| StpNetwork.RecvIsARun | video-master/libcommon/STPManager.h:117-142 | one call of a client's `recv` is a run of single arrivals: those with another number change nothing anywhere, and the next one is accepted iff it is a reply under the client's number |
| Broadcast.WithoutTarget | video-master/include/libwebsockets/lws-misc.h:157-168 | removal deletes only its target and keeps the order of the rest |
| Broadcast.WithoutAbsent | video-master/include/libwebsockets/lws-misc.h:157-168 | removing what is not listed changes nothing |
| Broadcast.NextKeepsInv | video-master/CXStreamer/common/protocol_lws_minimal.c:74-145 | every callback keeps numbering, bodies, order of delivery and wakeups |
| Broadcast.WriteableKeepsInv | video-master/CXStreamer/common/protocol_lws_minimal.c:97-113 | a writable callback, successful, short or idle, keeps them |
| Broadcast.ReceiveKeepsInv | video-master/CXStreamer/common/protocol_lws_minimal.c:115-138 | a received message, stored or dropped, keeps them |
| Broadcast.DeliveredInOrder | video-master/CXStreamer/common/protocol_lws_minimal.c:84-138 | over all runs each session gets strictly increasing numbers, each with the body published under it: never repeated, never reordered |
| Broadcast.JoinersGetLaterMessages | video-master/CXStreamer/common/protocol_lws_minimal.c:84-89 | over all runs a client stays listed until it disconnects, starts with nothing sent and no callback outstanding, and only ever gets messages published after it connected |
| Broadcast.ClosedOutcome | video-master/CXStreamer/common/protocol_lws_minimal.c:91-95 | a disconnect takes out exactly that session and keeps the order of the others |
| Broadcast.WriteableOutcome | video-master/CXStreamer/common/protocol_lws_minimal.c:97-113 | a message counts as sent exactly when it was written in full; a short write closes the session; without a message to send nothing but the wait ends; other sessions stay as they are |
| Broadcast.NoLostWakeup | video-master/CXStreamer/common/protocol_lws_minimal.c:97-138 | with a cached message every open session that has not sent it has a callback outstanding; with none outstanding it has the newest message or joined after it |
| Broadcast.WakeupsAreSafeIff | video-master/CXStreamer/common/protocol_lws_minimal.c:97-138 | in every reachable state an open session is never stranded while received messages can be stored, if and only if a message is cached or the session has the current one |
| Broadcast.StoredRunsStrandNobody | video-master/CXStreamer/common/protocol_lws_minimal.c:97-138 | a run that never runs out of memory ends with its latest message cached and strands no session |
| Broadcast.OutOfMemoryLosesWakeup | video-master/CXStreamer/common/protocol_lws_minimal.c:116-125 | the failing half is reachable: a run that drops a message strands a session |
| Broadcast.NextMessageRecovers | video-master/CXStreamer/common/protocol_lws_minimal.c:119-137 | from any reachable state the next stored message wakes all sessions and one successful callback delivers it |
| Broadcast.ServingAllDelivers | video-master/CXStreamer/common/protocol_lws_minimal.c:97-113 | serving every open session once brings all of them to the newest message |
| SessionList.Vhd.Insert | video-master/include/libwebsockets/lws-misc.h:147-154 | the chain becomes the new session followed by the old chain |
| SessionList.Vhd.Remove | video-master/include/libwebsockets/lws-misc.h:115-168 | the pointer-to-pointer loop ends and unlinks exactly the target from an acyclic, duplicate-free chain; an absent target changes nothing |
| SessionList.RemovedViews | video-master/include/libwebsockets/lws-misc.h:157-168 | unlinking a session in the chain is removing its connection from the list of sessions |
| SessionList.Vhd.OnEstablished | video-master/CXStreamer/common/protocol_lws_minimal.c:84-89 | the heap operation is the `Established` step: newest first, starting at the current number with no callback outstanding |
| SessionList.Vhd.OnClosed | video-master/CXStreamer/common/protocol_lws_minimal.c:91-95 | the heap operation is the `Closed` step and keeps the chain valid |
| SessionList.Vhd.OnWriteable | video-master/CXStreamer/common/protocol_lws_minimal.c:97-113 | the heap operation is the `Writeable` step; a full write sends the cached body under the current number, a short one closes the connection with -1, otherwise nothing is sent |
| SessionList.Vhd.WakeAll | video-master/CXStreamer/common/protocol_lws_minimal.c:134-137 | the list walk reaches every session of the chain, once, and changes nothing else |
| SessionList.Vhd.OnReceive | video-master/CXStreamer/common/protocol_lws_minimal.c:115-138 | the heap operation is the `Receive` step: stored under the next number with every session woken, or dropped with nothing cached |
| FrameQueue.RunKeepsInv | video-master/CXStreamer/common/livertspserver.cpp:44-122 | queue, ownership, delivery and pipe invariants survive every interleaving |
| FrameQueue.FramesAreConserved | video-master/CXStreamer/common/livertspserver.cpp:44-95 | accepted frames are the freed ones, the one in flight and the queue, in order; never more than ten wait |
| FrameQueue.FreedOnceNeverReadAfter | video-master/CXStreamer/common/livertspserver.cpp:12-55 | no frame is freed twice; a frame about to be read or deleted has not been freed |
| FrameQueue.DrainFreesAll | video-master/CXStreamer/common/livertspserver.cpp:64-70 | the drain leaves an empty queue with every accepted frame freed once |
| FrameQueue.NothingFreedAfterDrain | video-master/CXStreamer/common/livertspserver.cpp:64-95 | in every continuation after the drain nothing more is freed, and what is accepted stays in the queue, at most ten frames |
| FrameQueue.LateFramesAreNeverFreed | video-master/CXStreamer/common/livertspserver.cpp:64-95 | over all runs the frames accepted after the drain are exactly those in the queue and none of them is ever freed |
| FrameQueue.DeliveredIsHandledSinceStart | video-master/CXStreamer/common/livertspserver.cpp:44-122 | in every run, cut at the first start of the server, delivered are exactly the frames handled after the cut, in order; handled frames are a prefix of the accepted |
| FrameQueue.StartFixesSkipped | video-master/CXStreamer/common/livertspserver.cpp:52-122 | once the server is started no frame is skipped any more |
| FrameQueue.LoopRunsUntilStop | video-master/CXStreamer/common/livertspserver.cpp:44-46 | over all runs the thread goes from every test on to lock until the flag is cleared, and leaves its loop at the next test after that, never before |
| FrameQueue.QueuedFrameIsServed | video-master/CXStreamer/common/livertspserver.cpp:46-62 | in every reachable state before shutdown the thread by its own steps gets to any waiting frame: it ends up the latest one handled, handed to the server and written whole to the pipe if they exist, with only the frames behind it left |
| FrameQueue.StopLeadsToDrain | video-master/CXStreamer/common/livertspserver.cpp:40-72 | from every reachable state clearing the flag lets the thread drain and end within five steps, with every accepted frame freed |
| FrameQueue.WholeConcat | video-master/CXStreamer/common/VideoPipeServerMediaSubsession.cpp:65-81 | frames written whole make up their concatenation |
| FrameQueue.PipeIsFrameStream | video-master/CXStreamer/common/VideoPipeServerMediaSubsession.cpp:65-81 | the pipe holds in order a prefix of each frame delivered since it exists, and exactly the frames when no write failed |
| LiveRtspServer.LiveRTSPServer.PushData | video-master/CXStreamer/common/livertspserver.cpp:78-95 | the producer's section is the `Push` step: appended if fewer than ten wait, else refused |
| LiveRtspServer.LiveRTSPServer.Start | video-master/CXStreamer/common/livertspserver.cpp:104-122 | starting is the `StartSelf` step; a second start begins with a new pipe |
| LiveRtspServer.LiveRTSPServer.StopThread | video-master/CXStreamer/common/livertspserver.cpp:40-42 | the destructor's write is the `Stop` step |
| LiveRtspServer.LiveRTSPServer.ThreadTest | video-master/CXStreamer/common/livertspserver.cpp:46 | the loop test is the `Test` step: on to the lock while the flag is set, else out of the loop |
| LiveRtspServer.LiveRTSPServer.ThreadTake | video-master/CXStreamer/common/livertspserver.cpp:47-60 | the consumer's section is the `Take` step: the thread holds the oldest frame and the queue is the rest, or the queue was empty and stays |
| LiveRtspServer.LiveRTSPServer.ThreadDeliver | video-master/CXStreamer/common/livertspserver.cpp:52-53 | in every valid state delivery reads a frame that is not freed and is the `Deliver` step, whatever the writes do: a prefix of its bytes goes to the pipe |
| LiveRtspServer.LiveRTSPServer.ThreadDelete | video-master/CXStreamer/common/livertspserver.cpp:54 | deletion frees a frame that is not freed and is the `Delete` step |
| LiveRtspServer.LiveRTSPServer.ThreadDrain | video-master/CXStreamer/common/livertspserver.cpp:64-70 | the drain loop frees each queued frame once and is the `Drain` step |
| LiveRtspServer.LiveRTSPServer.InvGivesOwnership | video-master/CXStreamer/common/livertspserver.cpp:12-23 | in every valid state, which all methods keep, the frame in hand and the queued ones are not freed and the queued ones are distinct |
| PipeWriter.Pipe.PushPkg | video-master/CXStreamer/common/VideoPipeServerMediaSubsession.cpp:65-81 | for any short writes a prefix of the frame reaches the pipe, and the whole frame unless a write failed, with at most one write a byte; the loop variables are those of `After` |
| PipeWriter.LoopIsOverIff | video-master/CXStreamer/common/VideoPipeServerMediaSubsession.cpp:70-78 | whatever the writes return, the loop has ended iff one failed or together they reach the size of the frame |
| PipeWriter.LawfulWritesEnd | video-master/CXStreamer/common/VideoPipeServerMediaSubsession.cpp:70-78 | the loop ends within as many writes as the frame has bytes if each fails or makes progress |
| PipeWriter.ZeroWritesNeverEnd | video-master/CXStreamer/common/VideoPipeServerMediaSubsession.cpp:70-78 | with writes of nothing it would stay where it is for ever |
| Factory.TableIsFirstOffer | video-master/CXStreamer/factory.cpp:47-55 | a factory's map holds a class iff some descriptor offers it, and then the first that does |
| Factory.RegisterAgain | video-master/CXStreamer/factory.cpp:47-55 | repeating a registration changes nothing |
| Factory.FilledAgain | video-master/CXStreamer/factory.cpp:47-55 | a nested pass that starts over changes no map |
| Factory.FilledNext | video-master/CXStreamer/factory.cpp:47-65 | the next descriptor extends what every existing factory holds by exactly that descriptor |
| Factory.FilledNew | video-master/CXStreamer/factory.h:81-91 | a factory created in the middle of a pass has missed nothing |
| Factory.FirstTouchDecides | video-master/CXStreamer/factory.cpp:21-39 | the first lookup or successful registration of a name settles its entry for good |
| Factory.AvailableIffRegisteredFirst | video-master/CXStreamer/factory.cpp:21-39 | over all sequences of lookups and registrations a factory is available iff the first event that touched its name was a registration, whose class it then is |
| Factory.EarlyLookupBlocksForever | video-master/CXStreamer/factory.cpp:29-36 | a name looked up before anything registered it stays without a factory, whatever follows |
| Factory.Registry.RegisterFactory | video-master/CXStreamer/factory.cpp:21-31 | a registration at any time is one such event and leaves every instance complete |
| Factory.Registry.constructor | video-master/CXStreamer/factory.cpp:21-46 | static initialisation collects factories, first registration winning, and descriptors in order |
| Factory.Registry.RegisterElement | video-master/CXStreamer/factory.cpp:47-55 | the maps stay those of a prefix of the descriptors, the prefix growing only at its end |
| Factory.Registry.Init | video-master/CXStreamer/factory.cpp:56-67 | terminates though re-entrant; fails iff a descriptor names no factory; otherwise leaves every instance complete, having registered any given descriptor once per instance created |
| Factory.Registry.GetInstance | video-master/CXStreamer/factory.h:81-91 | the instance exists before its initialisation runs, which is why the recursion ends |
| Factory.Registry.GetFactoryInstanceByName | video-master/CXStreamer/factory.cpp:32-39 | an unknown name yields null and an entry for it; a known one its initialised instance |
| Factory.Registry.CreateElementByName | video-master/CXStreamer/factory.h:65-78 | finds the first descriptor in list order that offers the class, null iff none does |
| Factory.Registry.FirstLookup | video-master/CXStreamer/factory.cpp:32-67 | whichever factory is asked first: fails iff a descriptor names no factory; else finds the first offer, the instances are exactly the requested factory and those that descriptors name, all complete, and any given descriptor was registered once for each of them |
| Layout.RowIsSentinelIff | video-master/player.cpp:211-214 | a cell's row is the sentinel iff columns are negative and it lies in the second block |
| Layout.SentShowsUsedCells | video-master/player.cpp:252-313 | a message lists each used cell inside the grid once, in order, with row and column in range and leading back to the cell, and there is none exactly for a grid larger than the table; outside mode "unfixed" it is the 16 by 8 identity; it carries the mode |
| Layout.WrittenListsUsedCells | video-master/player.cpp:225-250 | the stored sources do the same for the whole table, beside its dimensions; storing fails exactly for a used cell without columns |
| Layout.ReadIs | video-master/player.cpp:163-224 | for every configuration: one cell and the identity in mode "fixed"; 8 by 8 and the identity without a layout; else the stored dimensions with 8 as default and the last full source for each cell, failing exactly for a missing list or a source outside the table |
| Layout.PlaceFiltered | video-master/player.cpp:204-222 | reading written entries restores all cells but those with a sentinel row |
| Layout.PersistenceRoundTripIff | video-master/player.cpp:163-250 | reading back restores rows, columns and every cell exactly for the stated grids, among them all tables with at least one column and no negative rows |
| Layout.PlaceIsLastEntryWins | video-master/player.cpp:334-345 | an update is the last entry for each cell and -1 elsewhere; it is accepted iff all entries lie inside the table |
| Layout.UpdatedIs | video-master/player.cpp:325-347 | an update is taken exactly in mode "unfixed" when set; accepted iff all entries lie inside the table and none stays used without columns; the table is then the last entry for each cell and is what gets stored |
| Layout.MessageIsFixpoint | video-master/player.cpp:252-349 | a message fed back keeps dimensions and the cells inside the grid, clears the others, and is sent again unchanged |
| Layout.UpdateSurvivesRestartIff | video-master/player.cpp:325-347 | an accepted update is restored at the next start iff its grid can be persisted |
| LayoutStore.LayoutStore.ReadLayoutConf | video-master/player.cpp:163-224 | the loops compute `Read`; it fails exactly for a missing list or an entry outside the table |
| LayoutStore.LayoutStore.WriteLayoutConf | video-master/player.cpp:225-250 | the loop computes `Written`; it fails exactly when a used cell is divided by zero columns |
| LayoutStore.LayoutStore.SendLayoutCfg | video-master/player.cpp:252-314 | the loop computes `Sent`, with the table overwritten in fixed mode; it fails exactly when the grid exceeds the table |
| LayoutStore.LayoutStore.OnReadText | video-master/player.cpp:315-351 | a query is answered, an update applied, persisted and answered, anything else ignored |
| Decimal.DigitsAreDigits | video-master/player.cpp:51-55 | the printed digits denote the number |
| Decimal.TextForm | video-master/player.cpp:39-64 | 0 prints as nothing, INT_MIN as a sign, every other number as its digits without leading zero, behind a sign exactly if negative |
| Decimal.ParseUndoesTextIff | video-master/player.cpp:39-64 | decimal parsing gives the number back for every `int` except 0 and INT_MIN |
| Decimal.TextIsInjective | video-master/player.cpp:39-64 | no two values of `int` print alike |
| Decimal.KeysAreDistinct | video-master/player.cpp:509-518 | the attribute keys of the table never collide |
| Decimal.PutDigits | video-master/player.cpp:51-55 | the digit loop leaves at most ten digits, in reverse |
| Decimal.PutReversed | video-master/player.cpp:57-61 | the reversal loop puts them in order behind the sign |
| Decimal.ToString | video-master/player.cpp:39-64 | both loops together, inside their buffers, print `Text(n)` |
| Settings.ParseLine | video-master/libcommon/zsettings.h:23-31 | a printed line reads back as its entry, values with '=' and empty parts included |
| Settings.EntryLine | video-master/libcommon/zsettings.h:20-31 | a line up to 1023 characters with a `=` sets the key before its first `=` to all that follows, replacing what was there |
| Settings.IgnoredLine | video-master/libcommon/zsettings.h:24-26 | a line without `=` is ignored |
| Settings.NulCutsLine | video-master/libcommon/zsettings.h:23 | what follows a NUL in its line is ignored |
| Settings.LastLine | video-master/libcommon/zsettings.h:21 | the last line counts also without a newline |
| Settings.LongLineStops | video-master/libcommon/zsettings.h:20-21 | a line of 1024 characters or more ends the loading with what was read before |
| Settings.LoadedIsPrintable | video-master/libcommon/zsettings.h:16-37 | whatever the file holds, only entries the format can carry are loaded |
| Settings.SettingsRoundTripIff | video-master/libcommon/zsettings.h:16-37 | loading what `sync` wrote gives the same map iff every entry fits the format |
| Settings.LoadedSettingsRoundTrip | video-master/libcommon/zsettings.h:70-91 | what any file loads as survives being saved and loaded again |
| Settings.ZSettings.constructor | video-master/libcommon/zsettings.h:16-37 | the line loop computes `Load`, stopping at a line that does not fit the buffer |
| Settings.FlagSurvivesSaving | video-master/libcommon/zsettings.h:39-91 | a flag that was set reads as set and every other key as before, at once and after saving in any order and loading again |
| Settings.ZSettings.Sync | video-master/libcommon/zsettings.h:70-91 | writes every entry once, and nothing at all unless a value was set |
| Settings.PrintAppend | video-master/libcommon/zsettings.h:78-84 | the file holds for each entry its key, `=`, its value and a newline, and nothing else |
| Feedback.NotificationsDifferOrAreZero | video-master/CXStreamer/common/websocketserverimplcfwk.cpp:54-60 | over all runs consecutive notifications differ or are zero, and the last is the stored maximum |
| Feedback.ReportTracksMaximum | video-master/CXStreamer/common/websocketserverimplcfwk.cpp:51-60 | after a report the stored maximum is that of all clients, however stale before |
| Feedback.SteadyReports | video-master/CXStreamer/common/websocketserverimplcfwk.cpp:51-60 | equal reports notify each time at maximum zero and otherwise at most once |
| Feedback.SteadyFeedback | video-master/player.cpp:65-110 | so an idle system reaches the top rate with 11 reports, and any other steady count moves the rate one step at most |
| Feedback.SteadyFeedbackReachesTopIff | video-master/player.cpp:65-110 | eleven or more steady reports take every start rate to the top iff the maximum with the reported count in place is zero |
| WebSocketServer.WebSocketServerImpl.Quiet | video-master/CXStreamer/common/websocketserverimplcfwk.cpp:73-81 | with more than ten clients the loop zeroes exactly the counts of all but the newest two, else none |
| WebSocketServer.WebSocketServerImpl.OnNewWebsocket | video-master/CXStreamer/common/websocketserverimplcfwk.cpp:21-30 | the client joins at the end with the count it was allocated with |
| WebSocketServer.WebSocketServerImpl.OnDisconnect | video-master/CXStreamer/common/websocketserverimplcfwk.cpp:31-42 | only that client leaves, the order of the others stays, and the list remains valid for what follows |
| WebSocketServer.WebSocketServerImpl.MaxElement | video-master/CXStreamer/common/websocketserverimplcfwk.cpp:55 | the largest count of all clients |
| WebSocketServer.WebSocketServerImpl.OnCliRead | video-master/CXStreamer/common/websocketserverimplcfwk.cpp:43-63 | a report, wrapped to 32 bits, is the `Report` step: it sets that client's count, and with a callback set the stored maximum becomes that of all counts and is notified iff it changed or is zero |
| WebSocketServer.WebSocketServerImpl.PushData | video-master/CXStreamer/common/websocketserverimplcfwk.cpp:71-95 | a frame goes to exactly the newest two clients, or fewer if there are fewer, newest first; with more than ten clients exactly the others' counts become zero |
| RateControl.Element.OnMaxPendingChanged | video-master/player.cpp:65-110 | an element other than the scaler under a connected RTSP server gets rate 5; otherwise the rate is adjusted, from 15 where none was set |
| RateControl.OneStep | video-master/player.cpp:73-94 | one report brings the rate into range; congestion lowers it, idleness raises it, up to the bounds |
| RateControl.OneStepExactly | video-master/player.cpp:73-94 | the new rate for every rate and report: a tenth off rounding down, one more, or unchanged, between 5 and 15 |
| RateControl.CongestedSteps | video-master/player.cpp:73-80 | exactly how many congested reports reach the minimum from each rate in range |
| RateControl.IdleSteps | video-master/player.cpp:81-88 | exactly how many idle reports reach the maximum |
| RateControl.ControllerConverges | video-master/player.cpp:65-110 | from any rate 8 congested reports reach 5 and 11 idle ones reach 15, and these numbers are tight |
| RateControl.OverrideAndRecovery | video-master/player.cpp:96-110 | over all runs a report under a connected RTSP server leaves 5; afterwards idle reports reach 15 iff there are 10 or more, and congested ones stay at 5 |
| RateControl.ScalerIgnoresRtsp | video-master/player.cpp:96-99 | for the scaler the rate depends on the reported counts alone |

## Left out

- Stp.StpManager.Recv: the message left in the caller's variable by a failing call is not modelled; no caller here reads it.
- StpNetwork.AcceptedReplyIsOwn: all datagrams come from these clients, this server or do not parse; forged messages that parse are not modelled.
- Decimal.ToString: the negation of INT_MIN, undefined in C++, is modelled as two's complement wrap-around.
- Factory.Registry.Init: a descriptor's own `init` is a constant result, and descriptors are added only before the first factory is requested, as the static registrations do.
- Layout.PersistenceRoundTripIff: overflow of row times columns plus column in `int` is not modelled.
- RateControl.ControllerConverges: overflow of nine or eleven times a huge rate is not modelled.
- LiveRtspServer.LiveRTSPServer.ThreadDrain: the destructor frees the object while its detached thread may still run; the model keeps the object and treats the flag as a stop signal.
- WebSocketServer.WebSocketServerImpl.OnCliRead: texts without a pending count change nothing and are not modelled; the read of the client list outside the mutex is modelled as one step.
- Overflow of request and message numbers: counters are unbounded.
- The timed overload of `recv`, socket options and multicast: time-outs are one of the outcomes of `recvfrom`.
- JSON, property-tree and web-socket libraries: messages and configuration are records of the members the code reads.
- Reply texts longer than the message buffers, and partial receipt of web-socket messages.
- Encoder, capture and display hardware, HTTP, Qt variants and logging: device or library glue with no state worth a proof.
- The start-up code that overwrites the layout table after loading it (player.cpp:500-511).
