# Verified model of the Radeon developer driver tools

Dafny 4.11 models of five connected parts of the developer driver code base, with proofs of what they
promise. `dafny verify dfyconfig.toml` checks everything; no file depends on anything outside this directory.

1. **Byte stream over a packet session** (`SocketStream`, `SocketFraming`,
   `SocketEndings`, `ClientSocket`). A session is a
   script of outcomes for its Send and Receive calls: every script is allowed, so every statement about a
   script is a statement about all session behaviours. The functions say what the raw, blocking and framed
   operations do against a script; the class `ClientSocketContext` updates the payload cache in place and is
   proved equal to them; `SocketEndings` says from the session's answers alone how each operation ends.
   Framed messages arrive as they were sent, whatever the packet boundaries.
2. **Settings wire format, end to end** (`DynamicBuffer`, `SettingsWire`, `SettingsWriter`,
   `OverridesEncoder`, `SettingsIterator`, `SettingsBase`, `SettingsService`, `SettingsNarrowing`,
   `SettingsQuery`, `SettingsRoundTrip`). The tool
   encodes overrides into a growing buffer and patches sizes in place, the driver walks the buffer with
   cursors, stores and applies the overrides, and answers queries in the same format; an override that was
   accepted is what a later query reports.
3. **Memory structures** (`Bits`, `MirroredBuffer`, `RingBuffer`, `ScratchBuffer`, `ApiRegistry`). Bit
   operations are defined on unbounded naturals, 32-bit wrap-around is explicit.
4. **Settings blobs and their cache** (`SettingsBlobs`, `Siphon`). Packing, the reload cache against a server
   without a cache, and the whole way from a driver's nodes to the payloads a tool parses.
5. **Driver connections and feature lock** (`ConnectionThread`, `ConnectionFate`, `ToolConnection`,
   `ConnectionRuns`, `ConnectionList`, `FeatureLock`). One step machine per connection thread, all of them interleaved with feature calls that
   read the count first and update later; what becomes of a connection is stated from the answers to its calls.

Where an expected property does not hold of the code, the code is kept, a lemma gives the inputs on which it
fails, and another says exactly when it holds:

- A timeout that follows the draining of a non-empty cache loses those bytes, and the blocking receive then
  succeeds with other data (`TimeoutLosesCache`). In-order delivery holds against every session exactly when
  the cache is empty or covers the request (`DeliversInOrderExactly`).
- The raw send narrows the remaining count to 32 bits, and can complete exactly for data below 2^32 bytes,
  given some time unless one packet is enough (`NarrowingStopsTheSend`, `SendCanCompleteExactly`); what it has sent is a prefix of its data
  at any size (`SendStepsCarryFront`).
- A library that reports no settings blobs gets the blob of an earlier library under its own path
  (`ZeroSizeKeepsStaleBlob`); apart from queries that have no path to load, the cache is invisible in all other
  cases (`CacheRefinesCacheless`).
- A handshake that fails before it was counted still takes one off the connection count. A feature call is
  let through exactly when as many connections are live as have failed early (`AdmittedExactly`,
  `EarlyFailureUnlocks`, `EarlyFailureLocks`). The check and the update of a feature are two steps, so a call
  that started earlier can still change a feature under a live connection (`LateUpdateChanges`); when exactly
  a call changes a feature is `CallChangesExactly`.
- In the query direction a component's size goes through a 16-bit cast. The answer is right exactly if every
  component has at most 65535 bytes (`NarrowIsExact`); a larger one leads a reader into its own bytes or keeps
  it in place (`WalkStep`, `OversizedComponentStays`).
- A string override that fills its array is accepted and leaves no terminator, which writing the settings out
  demands (`FullStringLosesTerminator`); `ApplyAllTerminated` says exactly when overrides keep it.
- The 32-bit alignment masks of blobs and API records are right exactly below 2^32 (`AlignedSizeExact`,
  `RecordSizeExact`).

Allocators are scripts that grant or refuse each request, so failures have exact conditions too: an error
sticks to a buffer exactly if one of its requests was refused.

## Model

| member | source | states |
|---|---|---|
| `Bits.NextSmallestPow2Least` | apis/common/inc/dd_integer.h:30-40 | the smear-and-increment steps give the least power of two at least x, for 0 < x <= 2^31 |
| `Bits.NextSmallestPow2Zero` | apis/common/inc/dd_integer.h:26-40 | the result is 0 exactly for 0 and above 2^31 |
| `Bits.AlignU32Correct` | apis/common/inc/dd_integer.h:42-52 | masked addition in 32 bits is rounding up to the power of two, or 0 where that is 2^32 |
| `Bits.MaskIsMod` | apis/common/src/dd_ring_buffer.cpp:19-41 | a mask of k ones is the remainder modulo 2^k |
| `Bits.FloorToEight` | apis/settings/src/dd_settings_blob.cpp:10-22 | the 32-bit complement of 7 floors to multiples of 8 below 2^32 and bounds every wider value |
| `Bits.LittleEndianDigit` | apis/settings/inc/dd_settings_rpc_types.h:8-68 | byte i of an integer field is the i-th digit to the base 256, least significant first |
| `MirroredBuffer.MirroredBufferSizeExact` | apis/common/src/dd_memory_linux.cpp:20-33 | for every power-of-two page up to 1 GB the range check passes exactly for requests from 1 to 2^30, also where alignment wraps to 0, and the size is the least power of two that covers request and page |
| `SocketStream.ReceiveRawConserves` | apis/ddSocket/src/ddSocket.cpp:354-469 | one raw receive: old cache plus bytes taken from the session are bytes dropped, then reported, then new cache, for every outcome |
| `SocketStream.RunRawShape` | apis/ddSocket/src/ddSocket.cpp:354-469 | in every run the cache stays within the payload maximum and the ledger has one piece per call |
| `SocketStream.ReceiveConservation` | apis/ddSocket/src/ddSocket.cpp:354-469 | over every run, all buffer sizes and outcomes: bytes taken are the in-order merge of reported and drained-by-failure bytes, followed by the cache |
| `SocketStream.ReportedIsPrefix` | apis/ddSocket/src/ddSocket.cpp:385-402 | if no failing call drained the cache, the reported bytes are exactly a prefix of the stream |
| `SocketStream.ReceiveAllShape` | apis/ddSocket/src/ddSocket.cpp:529-565 | a blocking receive drops at most once, before it reports anything, and then exactly the initial cache; on success it has all the bytes wanted |
| `SocketStream.ReceiveAllConserves` | apis/ddSocket/src/ddSocket.cpp:529-565 | the blocking receive conserves bytes across all its rounds and retries |
| `SocketStream.ReceiveAllCalls` | apis/ddSocket/src/ddSocket.cpp:545-562 | the loop ends within n + 8 raw calls |
| `SocketStream.TimeoutLosesCache` | apis/ddSocket/src/ddSocket.cpp:462-465 | for every non-empty cache smaller than the request there is a session on which a successful blocking receive skips the cached bytes |
| `SocketStream.DeliversInOrderExactly` | apis/ddSocket/src/ddSocket.cpp:529-565 | a successful blocking receive delivers the next bytes of the stream on every session if and only if the cache is empty or covers the request |
| `SocketStream.ReceiveAllSucceeds` | apis/ddSocket/src/ddSocket.cpp:529-565 | without timeouts it succeeds as soon as the session has enough bytes, without loss |
| `SocketStream.NarrowingStopsTheSend` | apis/ddSocket/src/ddSocket.cpp:316 | no session and no number of iterations get a raw send past the first size modulo 2^32 bytes |
| `SocketStream.SendCanCompleteExactly` | apis/ddSocket/src/ddSocket.cpp:280-351 | a raw send can put all its data on some session if and only if it is below 2^32 bytes and has some time, or fits one packet |
| `SocketStream.SendStepsCarryFront` | apis/ddSocket/src/ddSocket.cpp:280-351 | for data of any size and after any number of iterations, the packets carry exactly the first bytes in order without gap |
| `SocketStream.SendRawExact` | apis/ddSocket/src/ddSocket.cpp:280-351 | a raw send puts a prefix of its data on the session as packets of 1 to max-payload bytes, and reports its length on success, with progress |
| `SocketStream.SendAllExact` | apis/ddSocket/src/ddSocket.cpp:481-517 | a blocking send succeeds exactly when its packets concatenate to the data; failed, they are a prefix |
| `SocketStream.SendAllShape` | apis/ddSocket/src/ddSocket.cpp:497-514 | packets of 1 to max-payload bytes, at most n + 8 raw calls |
| `SocketFraming.SendFramedExact` | apis/ddSocket/src/ddSocket.cpp:568-582 | a framed send puts a prefix of prefix-and-message on the session, all of it exactly on success |
| `SocketFraming.SendMessagesExact` | apis/ddSocket/src/ddSocket.cpp:568-582 | the same for every sequence of messages up to the first failure |
| `SocketFraming.ReceiveFramedTakesFrame` | apis/ddSocket/src/ddSocket.cpp:585-625 | a framed receive that succeeds without loss takes exactly one frame off the stream |
| `SocketFraming.ReceiveMessagesTakesFrames` | apis/ddSocket/src/ddSocket.cpp:585-625 | successive framed receives without loss take exactly the frames of their messages |
| `SocketFraming.FrameUnique` | apis/ddSocket/src/ddSocket.cpp:568-625 | a frame can be read off a stream in one way only |
| `SocketFraming.FramesPrefixFree` | apis/ddSocket/src/ddSocket.cpp:568-625 | if frames lie inside a prefix of other frames, the messages are a prefix of the other messages |
| `SocketFraming.FramingEndToEnd` | apis/ddSocket/src/ddSocket.cpp:568-625 | for every behaviour of both in-order sessions, what is received without loss is a prefix of the messages sent |
| `SocketFraming.FramingExact` | apis/ddSocket/src/ddSocket.cpp:568-625 | with as many receives as messages and no loss, for every behaviour of both in-order sessions: all receives succeed if and only if exactly the sent messages arrive |
| `SocketFraming.FramingComplete` | apis/ddSocket/src/ddSocket.cpp:568-625 | when the session delivers what was sent without timing out, however it cuts the packets, and buffers suffice, all receives succeed and exactly the sent messages arrive |
| `SocketFraming.ReceiveFramedTooSmall` | apis/ddSocket/src/ddSocket.cpp:585-625 | a message larger than the buffer is refused after its 8-byte prefix, and all of it stays on the stream |
| `SocketEndings.BrokenEndsAtOnce` | apis/ddSocket/src/ddSocket.cpp:411-437 | with too little cached, a broken session is asked once and its own error is returned |
| `SocketEndings.BlockingReceiveEnds` | apis/ddSocket/src/ddSocket.cpp:529-565 | on every session the result is Error(code) if and only if the last session call answered that code, NotReady if and only if it was the ninth timeout, and nothing is asked behind a broken answer |
| `SocketEndings.ReceiveForgives` | apis/ddSocket/src/ddSocket.cpp:545-562 | a session that does not break, times out at most eight times and hands out enough bytes is received from in full, whatever was cached |
| `SocketEndings.FramedReceiveEnds` | apis/ddSocket/src/ddSocket.cpp:585-625 | a framed receive has the session's error exactly if the last session call broke with it, and NotReady only after a timeout |
| `SocketEndings.BlockingSendEnds` | apis/ddSocket/src/ddSocket.cpp:481-517 | on every session the result is Error(code) if and only if the last session call refused with that code, NotReady if and only if it found the session full and was the ninth raw send to end without one byte sent |
| `SocketEndings.SendForgives` | apis/ddSocket/src/ddSocket.cpp:497-514 | a session that refuses nothing and lets at most eight raw sends end so takes all the data |
| `SocketEndings.FramedSendEnds` | apis/ddSocket/src/ddSocket.cpp:568-582 | the same for prefix and message |
| `SocketEndings.SendAllPackets` | apis/ddSocket/src/ddSocket.cpp:313-331 | every packet of a blocking send has 1384 bytes, or all that is left |
| `ClientSocket.ClientSocketContext.DrainCache` | apis/ddSocket/src/ddSocket.cpp:385-402 | cached bytes move to the caller's buffer from the front; the rest stays cached |
| `ClientSocket.ClientSocketContext.ReceivePayload` | apis/ddSocket/src/ddSocket.cpp:404-460 | a payload goes straight to a buffer with room for a maximal one, otherwise through the cache; both leave the same bytes and the surplus cached |
| `ClientSocket.ClientSocketContext.ReceiveRaw` | apis/ddSocket/src/ddSocket.cpp:354-469 | buffer, cache and session are exactly as the stream function says, including bytes left unreported by a failing call |
| `ClientSocket.ClientSocketContext.ReceiveRound` | apis/ddSocket/src/ddSocket.cpp:545-562 | one round of the blocking loop keeps the received bytes at the head of the buffer and what is pending |
| `ClientSocket.ClientSocketContext.ReceiveWithTimeout` | apis/ddSocket/src/ddSocket.cpp:529-565 | the in-place loop refines the blocking-receive function; nothing behind the requested bytes changes |
| `ClientSocket.ClientSocketContext.SendRaw` | apis/ddSocket/src/ddSocket.cpp:280-351 | the packet loop with its shrinking timeout refines the raw-send function |
| `ClientSocket.ClientSocketContext.SendWithTimeout` | apis/ddSocket/src/ddSocket.cpp:481-517 | the retry loop refines the blocking-send function |
| `ClientSocket.ClientSocketContext.SendWithSizePrefix` | apis/ddSocket/src/ddSocket.cpp:568-582 | prefix, then data, refines the framed-send function |
| `ClientSocket.ClientSocketContext.ReceiveWithSizePrefix` | apis/ddSocket/src/ddSocket.cpp:585-625 | refines the framed-receive function; a message larger than the buffer is refused after its prefix was taken |
| `Ring.CellsDistinct` | apis/common/src/dd_ring_buffer.cpp:19-41 | positions less than the size apart are different cells |
| `Ring.ShownIsHistory` | apis/common/src/dd_ring_buffer.cpp:44-75 | the doubled view at position mod size shows the bytes written at those positions, also across the end |
| `Ring.RingBuffer.AcquireForWrite` | apis/common/src/dd_ring_buffer.cpp:19-42 | a range is granted exactly if it fits the free space, lies inside the doubled view and covers no unread byte |
| `Ring.RingBuffer.Fill` | apis/common/src/dd_ring_buffer.cpp:19-42 | storing through the view changes only the granted positions and no unread byte |
| `Ring.RingBuffer.AcquireForRead` | apis/common/src/dd_ring_buffer.cpp:44-59 | grants the oldest unread bytes up to the maximum |
| `Ring.RingBuffer.AcquireForReadAll` | apis/common/src/dd_ring_buffer.cpp:61-75 | grants all unread bytes |
| `Ring.RingBuffer.Fetch` | apis/common/src/dd_ring_buffer.cpp:44-75 | loading a granted read range gives the bytes written at its positions |
| `Ring.RunSections` | apis/common/src/dd_ring_buffer.cpp:10-80 | every order of locked writer and reader sections on a ring of any power-of-two size delivers what an unbounded FIFO with the same admission test delivers, a prefix of what was written |
| `Scratch.ScratchBuffer.Initialize` | apis/common/src/dd_memory.cpp:10-45 | succeeds exactly for sensible sizes whose aligned total fits 32 bits when the OS grants them; then both sizes are page multiples, and the invariant holds exactly if the top, which is not reset, is within the commit |
| `Scratch.ScratchBuffer.Push` | apis/common/src/dd_memory.cpp:57-83 | hands out the block at the old top, committing just the missing pages, or fails and changes nothing; live blocks stay disjoint and inside committed memory |
| `Scratch.ScratchBuffer.Pop` | apis/common/src/dd_memory.cpp:85-89 | lowers the top; a block survives if and only if it ends at or below it; committed memory does not shrink |
| `Scratch.ScratchBuffer.Clear` | apis/common/src/dd_memory.cpp:91-94 | the top is 0, only empty blocks at 0 remain, committed memory is the same |
| `Scratch.CommitFits` | apis/common/src/dd_memory.cpp:57-83 | the page-aligned missing bytes fit below the total, so no 32-bit sum wraps |
| `Scratch.SurvivingStacked` | apis/common/src/dd_memory.cpp:85-89 | surviving blocks keep order and disjointness |
| `DynamicBuffers.DynamicBuffer.Reserve` | apis/common/src/dd_dynamic_buffer.cpp:58-86 | refuses with data or for zero bytes; otherwise capacity becomes the larger; failure is recorded |
| `DynamicBuffers.DynamicBuffer.Copy` | apis/common/src/dd_dynamic_buffer.cpp:108-143 | contents are the concatenation of successful copies, an error sticks exactly if a request was refused, growth at least doubles, capacity stays within the largest reservation or twice the peak size |
| `DynamicBuffers.DynamicBuffer.Clear` | apis/common/src/dd_dynamic_buffer.cpp:88-96 | no contents, error and invariant kept |
| `DynamicBuffers.DynamicBuffer.Transfer` | apis/common/src/dd_dynamic_buffer.cpp:145-156 | gives the memory away with its capacity as size and starts afresh |
| `DynamicBuffers.DynamicBuffer.HandOver` | apis/tools/src/dd_settings.cpp:100-139 | copy or transfer: the caller gets exactly the received bytes, or nothing if the memory for the copy is refused, which the wrapper does not report |
| `SettingsWire.EncodeAllTiles` | apis/settings/inc/dd_settings_rpc_types.h:8-68 | the components of an encoded buffer tile it behind the 4-byte header, each size field leading to the next |
| `SettingsWire.BodyTiles` | apis/settings/inc/dd_settings_rpc_types.h:8-68 | the values of a component, empty ones included, tile its body behind 7-byte headers |
| `SettingsWire.BodyHashesTile` | apis/settings/src/dd_settings_base.cpp:248-262 | experiment hashes tile a body in steps of 4 bytes |
| `OverridesEncoding.EncodeOne` | apis/tools/src/dd_settings.cpp:418-463 | header with size 0, values, then the size patched in place, is the encoding of the component; it fails exactly if a request was refused |
| `OverridesEncoding.EncodeOverrides` | apis/tools/src/dd_settings.cpp:392-465 | succeeds exactly if every request was granted; the buffer is then exactly the encoding of all components; the number of requests is logarithmic in its size |
| `SettingsWriting.ByteWriterBegin` | apis/tools/src/dd_settings.cpp:54-72 | the announced size is reserved exactly if the buffer is empty and has the memory or gets it |
| `SettingsWriting.ByteWriterWrite` | apis/tools/src/dd_settings.cpp:74-93 | appends exactly if there is nothing to append, or no error sticks and the memory is there or granted; what fits the reservation cannot fail |
| `SettingsIteration.SettingsIterator.NextComponent` | apis/settings/src/dd_settings_iterator.cpp:38-80 | found exactly while there is a component, with its fields and position |
| `SettingsIteration.SettingsIterator.NextValue` | apis/settings/src/dd_settings_iterator.cpp:82-130 | found exactly while there is a value, with its hash, type and data |
| `SettingsIteration.SettingsIterator.NextUnsupportedExperiment` | apis/settings/src/dd_settings_iterator.cpp:132-177 | found exactly while there is a hash |
| `SettingsIteration.ReadAllValues` | apis/settings/src/dd_settings_iterator.cpp:38-130 | iterating an encoded buffer terminates and yields exactly its components and values in order, also without values and with empty values |
| `SettingsIteration.ReadAllExperiments` | apis/settings/src/dd_settings_iterator.cpp:132-177 | the same for experiment hashes |
| `SettingsStore.ApplyAllHolds` | apis/settings/src/dd_settings_service.cpp:52-70 | with distinct hashes a setting with an applicable override holds exactly that override |
| `SettingsStore.ApplyAllFrame` | apis/settings/src/dd_settings_service.cpp:52-70 | a setting without an applicable override is unchanged |
| `SettingsStore.AcceptedIsHeld` | apis/settings/src/dd_settings_base.cpp:20-129 | every override with the setting's type and at most its size is held afterwards: the optional is set, whatever it was, a scalar has the bytes sent, a string begins with them and keeps its tail |
| `SettingsStore.RefusedIsKept` | apis/settings/src/dd_settings_base.cpp:94-129 | a setting for which every override has another type or is too large is unchanged |
| `SettingsStore.EmittedSizeFits` | apis/settings/src/dd_settings_base.cpp:194-203 | the bytes written for a setting lie inside it if and only if a string has a NUL in its array, which the source asserts |
| `SettingsStore.AssignTerminated` | apis/settings/src/dd_settings_base.cpp:26-66 | an assigned string ends inside its array if and only if the override or the tail it leaves has a NUL |
| `SettingsStore.ApplyAllTerminated` | apis/settings/src/dd_settings_service.cpp:52-70 | after overrides with distinct hashes all strings can be written out if and only if each accepted override keeps a terminator |
| `SettingsStore.FullStringLosesTerminator` | apis/settings/src/dd_settings_base.cpp:94-129 | an accepted override that fills its array, after which writing out would take one byte more than the array has |
| `SettingsStore.PresentValuesExact` | apis/settings/src/dd_settings_base.cpp:180-246 | the written values are exactly those of non-empty strings, set optionals and plain scalars |
| `SettingsStore.EnumerationReports` | apis/settings/src/dd_settings_base.cpp:180-246 | writing out any enumeration of the settings map reports exactly its present settings, each once, and their number |
| `SettingsStore.SettingsBase.SetValue` | apis/settings/src/dd_settings_base.cpp:94-129 | exactly one setting changes, and only for a known hash, matching type and fitting size; it then holds the override, set even if it was not; each refusal has its code and changes nothing |
| `SettingsStore.SettingsBase.GetAllValues` | apis/settings/src/dd_settings_base.cpp:180-246 | appends exactly the present settings of the component in the map's order and counts them; it fails only with the buffer's error |
| `SettingsStore.SettingsBase.GetUnsupportedExperiments` | apis/settings/src/dd_settings_base.cpp:248-262 | appends all hashes if the capacity holds them, otherwise nothing, also where the buffer was refused its memory |
| `SettingsStore.EmittedString` | apis/settings/src/dd_settings_base.cpp:194-212 | a string is written up to and with its NUL and reads back as the same C string |
| `SettingsService.StoreAllDistinct` | apis/settings/src/dd_settings_service.cpp:110-152 | distinct names are all stored, each with its own values, and nothing else changes |
| `SettingsService.StoreAllExactly` | apis/settings/src/dd_settings_service.cpp:110-152 | for all overrides: the parse fails exactly if a name is stored already or repeated, stops at the first such one, and stores what is in front of it under its own names |
| `SettingsService.WireNameKeepsString` | apis/tools/src/dd_settings.cpp:422-425 | a name survives its field exactly if it has at most 40 characters |
| `SettingsService.SettingsRpcService.SendAllUserOverrides` | apis/settings/src/dd_settings_service.cpp:110-152 | parsing an encoded buffer stores what the encoder was given, up to a repeated name |
| `SettingsService.SettingsRpcService.RegisterSettingsComponent` | apis/settings/src/dd_settings_service.cpp:33-70 | the component gets exactly the overrides stored under its name |
| `SettingsService.SettingsRpcService.ApplyUserOverride` | apis/settings/src/dd_settings_service.cpp:72-98 | the first override with the hash is copied if it fits, whatever its type |
| `SettingsService.DeliverOverrides` | apis/tools/src/dd_settings.cpp:392-465 | encode, parse and register: the component has exactly its own overrides applied, and is registered, if and only if every request was granted, of which there are logarithmically many in the size of the encoding |
| `SettingsService.DeliveredOverrides` | apis/settings/src/dd_settings_service.cpp:33-152 | every known setting with an override of matching type and fitting size holds it, every other keeps its default |
| `SettingsNarrowing.NarrowIsExact` | apis/settings/src/dd_settings_service.cpp:196-197 | the answer is the proper encoding if and only if every component has at most 65535 bytes |
| `SettingsNarrowing.WalkStep` | apis/settings/src/dd_settings_service.cpp:196-197 | the size field of any component leads to the next one exactly up to 65535 bytes, back to itself exactly at multiples of 65536, otherwise into its own bytes |
| `SettingsQuery.OversizedComponentStays` | apis/settings/src/dd_settings_service.cpp:196-197 | a component with one string of 65474 bytes is written with 65536 bytes and a size field of zero, which keeps a reader in place |
| `SettingsQuery.NameFieldKeepsString` | apis/settings/src/dd_settings_service.cpp:185-190 | a component name reads back from its field exactly if it has at most 40 characters |
| `SettingsService.SettingsRpcService.QueryAllCurrentValues` | apis/settings/src/dd_settings_service.cpp:154-218 | the answer is the encoding of the present settings of exactly the registered components, each once; it fails only where memory was refused |
| `SettingsService.SettingsRpcService.GetUnsupportedExperiments` | apis/settings/src/dd_settings_service.cpp:220-283 | answered only if the experiments of every registered component fit the scratch buffer (1024, or none if it was refused), invalid only if some do not, failed only if the client's buffer was refused; components without experiments are left out |
| `SettingsRoundTrip.QueryRoundTrip` | apis/settings/src/dd_settings_service.cpp:154-218 | reading a service's answer gives, for each registered component, a value if and only if the component has that setting present, with exactly its data, and their number, if all have at most 65535 bytes; with memory for every request the query succeeds |
| `SettingsRoundTrip.ExperimentsRoundTrip` | apis/settings/src/dd_settings_service.cpp:220-283 | reading the answer gives exactly the registered components with experiments and their hashes; with memory for every request it is answered if and only if all fit |
| `SettingsRoundTrip.OverrideShown` | apis/settings/src/dd_settings_service.cpp:33-218 | an accepted override is what a later query shows: a scalar exactly as sent, a string as its text, an empty text as no value |
| `SettingsRoundTrip.OverrideThenQuery` | apis/settings/src/dd_settings_service.cpp:33-218 | the whole circle from a tool's overrides through a service to the answer of its query: it shows exactly the overrides that the component accepted and all its other settings as they were, answers for all other registered components too, and succeeds with memory for every request |
| `SettingsBlobs.AlignedSizeExact` | apis/settings/src/dd_settings_blob.cpp:10-22 | the aligned size is the least multiple of 8 that holds header and blob if and only if that does not wrap |
| `SettingsBlobs.FitCountExact` | apis/settings/src/dd_settings_blob.cpp:44-113 | the number of written blobs is the length of the longest prefix that fits |
| `SettingsBlobs.FullSizeHoldsAll` | apis/settings/src/dd_settings_blob.cpp:44-113 | a buffer of the returned size holds every blob |
| `SettingsBlobs.GetAllSettingsBlobs` | apis/settings/src/dd_settings_blob.cpp:44-113 | for any nodes and buffer: returns the full size, packs exactly the longest fitting prefix of non-empty blobs with all fields, touches nothing behind it |
| `SettingsBlobs.ParseSettingsBlobs` | apis/settings/src/dd_settings_utils.cpp:262-340 | the walk behind the path prefix finds every payload in order; an empty table is a failure |
| `Siphon.ParamsRoundTrip` | apis/tools/src/dd_settings.cpp:321-390 | every query within the path limit arrives as asked, although its terminator is counted and not sent |
| `Siphon.ParamsBytes` | apis/tools/src/dd_settings.cpp:321-390 | the parameters byte by byte: driver type, flag, path size with terminator, path |
| `Siphon.ReplyAsBytes` | modules/siphon/src/SiphonModuleConnectionContext.cpp:1208-1258 | the reply byte by byte: path size, path, terminator, blobs or an empty table of version 1 |
| `Siphon.SiphonModule.constructor` | modules/siphon/src/SiphonModuleConnectionContext.cpp:1042-1078 | start-up loads every default path there is and leaves entries whose path and blob belong together |
| `Siphon.SiphonModule.LoadSettingsBlobs` | modules/siphon/src/SiphonModuleConnectionContext.cpp:1157-1207 | a failed load changes nothing; size zero succeeds and keeps the old blob |
| `Siphon.WriteResult` | modules/siphon/src/SiphonModuleConnectionContext.cpp:1208-1258 | succeeds exactly if the one request for the announced size is granted, and exactly that many bytes are written: the buffer is full |
| `Siphon.SiphonModule.QueryWithReload` | modules/siphon/src/SiphonModuleConnectionContext.cpp:1261-1302 | only the queried driver's entry changes, as the cache step says; the reply carries its path and blob and fails exactly if its memory is refused |
| `Siphon.SiphonModule.QuerySettingsBlobsAll` | modules/siphon/src/SiphonModuleConnectionContext.cpp:108-151 | short buffers and unknown drivers are refused and change nothing; everything else is decoded and served |
| `Siphon.EntriesKept` | modules/siphon/src/SiphonModuleConnectionContext.cpp:1261-1302 | every query history keeps default paths, the path of the last reply and a blob that belongs to it, and there is a blob exactly if a reply carried one |
| `Siphon.CacheRefinesCacheless` | modules/siphon/src/SiphonModuleConnectionContext.cpp:1157-1302 | after any history every query gets the cacheless server's reply, except exactly where its library reports size zero while a blob of its driver type is cached, or where no path is to be loaded; replies carry the requested path and refusals leave path and blob as they were |
| `Siphon.CacheInvisible` | modules/siphon/src/SiphonModuleConnectionContext.cpp:1157-1302 | if every library reports a blob, all replies of all histories are the cacheless ones, but for the empty table of a driver type that has no path and never loaded |
| `Siphon.FreshAnswer` | modules/siphon/src/SiphonModuleConnectionContext.cpp:1261-1302 | for every entry, cached or not: a query that reloads or asks for another path is answered from the library as it is now, or with its refusal, which changes nothing |
| `Siphon.CachedAnswer` | modules/siphon/src/SiphonModuleConnectionContext.cpp:1279-1291 | any other query is answered from the entry, whatever the libraries are now |
| `Siphon.ReloadGivesPresent` | modules/siphon/src/SiphonModuleConnectionContext.cpp:1261-1302 | after any history of queries with libraries that change in between, a reload gives the bytes that the library reports now |
| `Siphon.ZeroSizeKeepsStaleBlob` | modules/siphon/src/SiphonModuleConnectionContext.cpp:1183-1204 | behind start-up with a library that has a blob, a query for one without is answered with the other's blob |
| `Siphon.ExportBlobs` | modules/siphon/src/SiphonModuleConnectionContext.cpp:1183-1196 | size query and fill query give all non-empty blobs of the driver's nodes packed, and never size zero |
| `Siphon.Ask` | apis/tools/src/dd_settings.cpp:100-139 | a query through parameter encoding, cache, byte writer and hand-over gives the bytes of the cache's reply, whether or not a copy would be granted, or fails exactly as the cache or the allocator says; long paths and unknown driver types are refused |
| `Siphon.QueryAndParse` | apis/settings/src/dd_settings_utils.cpp:262-340 | from a driver's export to parsed payloads, for a given or the default path: exactly the payloads of the exported nodes in order, unless and only unless the memory for the reply is refused |
| `ConnectionThread.TracesOfAllRuns` | apis/tools/src/dd_tool_connection.cpp:63-267 | for every driver and filter the callbacks of a finished thread are none, or Connected, PlatformInit, states with post-device-init last or second last, Disconnected; some exactly if it was accepted |
| `ConnectionThread.EveryTraceOccurs` | apis/tools/src/dd_tool_connection.cpp:63-267 | each such trace is the trace of some finished run |
| `ConnectionFate.FateByOutcomes` | apis/tools/src/dd_tool_connection.cpp:122-267 | from the outcomes alone: a finished thread has callbacks if and only if its first three calls succeeded, the driver was in state 6 and the filter did not ignore it; it ended ignored if and only if the filter did |
| `ConnectionFate.CallbacksFollowDriver` | apis/tools/src/dd_tool_connection.cpp:63-253 | the callbacks of an accepted connection are Connected, state 6, the states that the advances reported up to state 7 or the first failure, the state queried behind a successful resume, Disconnected |
| `ConnectionFate.WaitsWhileConnected` | apis/tools/src/dd_tool_connection.cpp:229-250 | without an exit request the thread waits on if and only if every answer is NotReady, and tells nothing meanwhile |
| `ConnectionFate.ExitFinishes` | apis/tools/src/dd_tool_connection.cpp:229-267 | asked to exit it is finished after five more calls, whatever they come back with, and has told Disconnected once |
| `ConnectionFate.IgnoredDriverIsReleased` | apis/tools/src/dd_tool_connection.cpp:182-258 | the exact calls an ignored driver gets: the command, n advances only if it does not know the command, a resume exactly if the last of these succeeded, disconnect |
| `ToolConnections.CountKept` | apis/tools/src/dd_tool_connection.cpp:224-263 | every step keeps the count congruent to live connections minus early failures modulo 2^32 |
| `ToolConnections.InvariantOfAllRuns` | apis/tools/src/dd_tool_connection.cpp:122-267 | in every interleaving: count balance, trace shapes, one listed connection per id, admission record of every call, consistent features |
| `ToolConnections.AdmittedExactly` | apis/tools/src/dd_driver_utils.cpp:200-209 | with fewer than 2^32 connections a call is let through if and only if live connections and early failures are equal in number |
| `ToolConnections.LiveConnectionLocksFeatures` | apis/tools/src/dd_driver_utils.cpp:200-303 | without early failures a call that starts while a connection is live changes nothing in any continuation |
| `ToolConnections.ChangesExactly` | apis/tools/src/dd_driver_utils.cpp:200-303 | a step changes the features if and only if it finishes a call that saw as many live connections as early failures and whose request makes a difference |
| `ToolConnections.CallChangesExactly` | apis/tools/src/dd_driver_utils.cpp:200-303 | whatever happens between its start and its end, a call changes a feature if and only if live connections and early failures were equal when it started and its request makes a difference when it finishes |
| `ToolConnections.ConnectedIsLive` | apis/tools/src/dd_tool_connection.cpp:224-253 | between Connected and Disconnected a connection is live |
| `ToolConnections.OneThreadPerId` | apis/tools/src/dd_tool_connection.cpp:450-491 | of two connections with one id the earlier has finished |
| `ConnectionRuns.ThreadsAreRuns` | apis/tools/src/dd_tool_connection.cpp:122-267 | in every interleaving each thread is where its own outcomes and exit requests have brought it |
| `ConnectionRuns.WeightByOutcomes` | apis/tools/src/dd_tool_connection.cpp:122-267 | in every interleaving, behind its fifth call: a connection is live or past its decrement exactly if its greeting succeeded in state 6 and it was not ignored, and an early failure exactly if the greeting failed |
| `ToolConnections.EarlyFailureUnlocks` | apis/tools/src/dd_tool_connection.cpp:260-263 | a run in which an early failure lets a call change a feature under a live connection |
| `ToolConnections.EarlyFailureLocks` | apis/tools/src/dd_tool_connection.cpp:260-263 | a run in which an early failure rejects a call although nothing is connected |
| `ToolConnections.LateUpdateChanges` | apis/tools/src/dd_driver_utils.cpp:209-212 | a run in which a call admitted before a connection changes a feature under it |
| `ConnectionLists.ConnectionList.HandleDriverConnection` | apis/tools/src/dd_tool_connection.cpp:450-491 | a new id is appended, a listed one is not; finished connections are erased in place, all others keep their order |
| `ConnectionLists.HandlingIsSpawnAndJoins` | apis/tools/src/dd_tool_connection.cpp:450-491 | such a call is a spawn step and join steps of the system |
| `FeatureLock.SettersAreLastAccepted` | apis/tools/src/dd_driver_utils.cpp:200-303 | after any history the setters are, without repeats, the names whose last accepted request was not to ignore; all for the present flag, which is Ignore exactly without setters |
| `FeatureLock.UpdateChangesExactly` | apis/tools/src/dd_driver_utils.cpp:200-303 | a request makes a difference if and only if it is accepted and enters a new setter or takes one out |
| `FeatureLock.FreeBetween` | apis/tools/src/dd_driver_utils.cpp:200-303 | between Enable and Disable there was a moment without setters |
| `FeatureLock.ConflictEnds` | apis/tools/src/dd_driver_utils.cpp:284-294 | a conflicting request changes nothing, and is accepted once all setters have left |
| `FeatureLock.SettersAreHolders` | apis/tools/src/dd_driver_utils.cpp:200-303 | after any history the setters are the keys of a map in which a name that asks to ignore is removed and one that asks for what all want is entered, and all want the flag |
| `FeatureLock.LeavingLeaves` | apis/tools/src/dd_driver_utils.cpp:239-263 | after any history a name that asks to ignore is no setter, all others stay, and the feature is free again if it was the only one |
| `FeatureLock.EnteringEnters` | apis/tools/src/dd_driver_utils.cpp:223-295 | after any history a request for a flag enters its name, unless some name holds the opposite flag; then nothing changes |
| `FeatureLock.RefusedExactly` | apis/tools/src/dd_driver_utils.cpp:223-295 | a request is refused if and only if some setter's last accepted request was the opposite flag |
| `FeatureLock.Feature.SetFeature` | apis/tools/src/dd_driver_utils.cpp:200-303 | the in-place update refines the request step; NotReady exactly if a flag is set and the opposite one asked for, ConnectionExists with a connection, Done otherwise, with the name in or out as asked |
| `ApiRegistries.RecordSizeExact` | apis/tools/src/dd_api_registry.cpp:60-63 | the padded record size is right if and only if it is below 2^32 |
| `ApiRegistries.PoolRefinesMap` | apis/tools/src/dd_api_registry.cpp:36-82 | after any run of additions names are distinct, records tile the pool at multiples of 8, and they are exactly the map of accepted registrations |
| `ApiRegistries.LookupIsMapLookup` | apis/tools/src/dd_api_registry.cpp:84-121 | what Get finds is map lookup under the major-equal, minor-at-least rule, and the bytes at its position are the map's |
| `ApiRegistries.AdditionsExactly` | apis/tools/src/dd_api_registry.cpp:36-82 | after any run of additions the next is registered if and only if its name is new and 40 header bytes and its struct, padded to 8, fit behind the others in 4096; otherwise it is refused as known or too large |
| `ApiRegistries.AdditionsExtend` | apis/tools/src/dd_api_registry.cpp:36-82 | later additions move no record |
| `ApiRegistries.ApiRegistry.Add` | apis/tools/src/dd_api_registry.cpp:36-82 | appends a new name that fits 4096 bytes; AlreadyExists exactly for a name that is there; a failed addition changes nothing, and no byte in use ever changes |
| `ApiRegistries.ApiRegistry.Get` | apis/tools/src/dd_api_registry.cpp:84-121 | answers by name and version with the aligned position of exactly the registered bytes |

## Left out

- ClientSocket.ClientSocketContext.SendRaw: requires data below 2^32 bytes, because beyond that its loop need not end on any session; `NarrowingStopsTheSend` and `SendCanCompleteExactly` say what happens there.
- ClientSocket.ClientSocketContext.SendWithTimeout: the same bound.
- ClientSocket.ClientSocketContext.SendWithSizePrefix: the same bound.
- SocketStream.SendRawExact: the same bound.
- SocketStream.SendAllExact: the same bound.
- SocketStream.SendAllShape: the same bound.
- SocketFraming.SendFramedExact: the same bound.
- SocketFraming.SendMessagesExact: the same bound.
- SocketEndings.BlockingSendEnds: the same bound.
- SocketEndings.SendForgives: the same bound.
- SocketEndings.FramedSendEnds: the same bound.
- SocketEndings.SendAllPackets: the same bound.
- ClientSocket.ClientSocketContext.ReceiveWithSizePrefix: the branch for prefixes above SIZE_MAX of 32-bit machines and the variant with a caller's timeout (apis/ddSocket/src/ddSocket.cpp:627-669) are not modelled.
- SettingsBlobs.GetAllSettingsBlobs: requires totals below 2^32, as the original's checked casts do.
- SettingsBlobs.ParseSettingsBlobs: only the header and blob walk over packed buffers; the JSON inside a blob is not parsed.
- ApiRegistries.ApiRegistry.Add: requires padded sizes below 2^32; `RecordSizeExact` shows that the original computes wrong sizes beyond. Name pointers are taken as the strings they point to, and record headers are kept as typed values beside the bytes of the pool.
- SettingsStore.SettingsBase.SetValue: requires scalars of exactly their type's size (the original reads that many bytes whatever the size says) and no custom setter.
- SettingsStore.AcceptedIsHeld: the same demand on scalars, and distinct hashes.
- Siphon.ParamsBytes: paths below 255 bytes and types below 256, to write single bytes out; `ParamsRoundTrip` has all others.
- Siphon.ReplyAsBytes: paths below 255 bytes, likewise.
- ConnectionRuns.WeightByOutcomes: from the fifth call on; before that a connection is still deciding or on its way to its decrement.
- ApiRegistries.AdditionsExactly: the same bound as Add.
- SettingsService.SettingsRpcService.SendAllUserOverrides: stated for well-formed buffers; malformed ones run into the original's assertions.
- SettingsService.SettingsRpcService.RegisterSettingsComponent: the same demand on the stored scalars as SetValue.
- SettingsIteration.SettingsIterator.NextComponent: stated for well-formed buffers, for the same reason.
- SettingsIteration.SettingsIterator.NextValue: stated for well-formed buffers, for the same reason.
- SettingsIteration.SettingsIterator.NextUnsupportedExperiment: stated for well-formed buffers, for the same reason.
- SettingsStore.SettingsBase.GetAllValues: requires strings that end inside their array, which the original asserts before it writes them; `EmittedSizeFits` and `ApplyAllTerminated` say when that holds.
- SettingsStore.EmittedString: the same demand.
- SettingsStore.PresentValuesExact: the same demand.
- SettingsRoundTrip.QueryRoundTrip: the reader is followed for components of at most 65535 bytes; `NarrowIsExact` and `WalkStep` say what larger ones do.
- SettingsStore.EnumerationReports: the same demand on strings as GetAllValues.
- UnRegisterSettingsComponent and TotalUserOverrideCount: they would only add easy members.
- Siphon.Ask: the allocation of the tool's parameter buffer, whose failure the original does not look at, is not modelled.
- Siphon.SiphonModule.QuerySettingsBlobsAll: requires that the path announced in the parameters lies in the buffer, which the original reads unchecked; driver types are read as unsigned.
- Ring.RingBuffer.AcquireForWrite: read and write positions are unbounded; the wrap of the 64-bit counters is not modelled.
- DynamicBuffers.DynamicBuffer.Copy: sizes are unbounded; overflow of size_t is not modelled.
- GetValue and FindValueRef of a settings component: they copy the raw bytes of an optional, whose layout is not part of this model.
- Handles, null parameters, connect, listen, accept and the socket server.
- Memory mapping, page commit, mutexes, threads, clocks and allocators: their outcomes are parameters or arbitrary choices, and lock scopes are atomic steps.
- Finding default driver paths, decoding of encoded blobs (a no-op in these sources), kernel settings and all other siphon requests.
- FinalizeSettings, event streamers, RDF transfer, logger, GPU profiling, PCI and registry utilities, generated RPC clients and services.
- CloseDriverConnections as one call: its exit requests and joins are steps of the system.
- Deadlock freedom and liveness of connections: a driver may keep a thread stepping or waiting for ever; `ExitFinishes` covers the exit request only.
- Big-endian machines: integers in buffers are little-endian.
