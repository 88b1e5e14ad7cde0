# netty-icap codec core, modelled in Dafny

This project models the core of netty-icap. netty-icap is a Netty codec for the Internet Content Adaptation Protocol (ICAP, RFC 3507). The model covers four parts:

- **The ICAP message** (`AbstractIcapMessage`, module `IcapMessages`).
  - The protocol version and the Preview header value.
  - The Encapsulated descriptor and the embedded HTTP request and response.
  - The body-type tag.
  - A reference count that is propagated to the embedded HTTP entities.
  - Two collaborators appear as small classes: Netty's `ByteBuf` (readable bytes and a reference count) and the embedded full HTTP entities. An entity has a content buffer that is never null and no count of its own: as in Netty, its refCnt, retain and release act on that buffer. The request and the response may share one buffer, which then moves once for each of them.
- **The outbound chunk separator** (`IcapChunkSeparator`, module `IcapChunkSeparator`).
  - It writes a complete message as the head message, then its body in chunks of at most `chunkSize` bytes, then at most one trailer.
  - Writing to the channel context is modelled as appending `Frame`s to the sequence that `Write` returns.
  - The methods are proved against the pure functions `SelectBody`, `Chunks` and `BodyFrames`, which take a value snapshot (`View`) of the message as it was before the call.
- **The decoder front end** (`IcapMessageDecoder`, module `IcapDecoding`).
  - Limit validation, with the default limits 4096/8192/8192.
  - The switch that falls through from SKIP_CONTROL_CHARS to READ_ICAP_INITIAL to READ_ICAP_HEADER.
  - The `Decode` method is proved equal to the pure function `DecodeStep`.
  - The helpers of `IcapDecoderUtil` and the subclass hook `createMessage` are given to the decoder as functions. `HonestUtil` states the two things the model relies on: the helpers only consume input, and a line read under a limit is no longer than that limit.
- **The body-processing decision** (`BodyProcessingDecisionState`, module `BodyProcessing`).
  - This is the state that follows the message head. It sends a preview message to the preview state and any other message to reading chunk sizes.

Two behaviours of the code are worth knowing:

- A non-preview message always goes to READ_CHUNK_SIZE, even with no body entity (BodyProcessingDecisionState.java:23-28).
- A response's own content is chosen whenever it is non-null, even when it is empty (IcapChunkSeparator.java:98-105, `EmptyStandaloneContentIsStillChosen`). That case then writes no chunk, and writes a trailer only for a preview or a Use-Original-Body value.

## Model

| member | source | states |
|---|---|---|
| IcapMessages.IcapMessage.constructor | src/main/java/ch/mimo/netty/handler/codec/icap/AbstractIcapMessage.java:35-49 | A new message has reference count 1, the given version, no Preview header (preview amount -1, not a preview), no embedded entities, no Encapsulated header and no body tag |
| IcapMessages.IcapMessage.RefCnt | src/main/java/ch/mimo/netty/handler/codec/icap/AbstractIcapMessage.java:226-229 | Reports the message's own count, which is kept apart from the embedded entities' counts |
| IcapMessages.IcapMessage.GetPreviewAmount | src/main/java/ch/mimo/netty/handler/codec/icap/AbstractIcapMessage.java:100-103 | Reports the Preview header's value, -1 when there is none |
| IcapMessages.IcapMessage.IsPreviewMessage | src/main/java/ch/mimo/netty/handler/codec/icap/AbstractIcapMessage.java:164-167 | A message is a preview exactly when its preview amount is non-negative |
| IcapMessages.IcapMessage.GetProtocolVersion | src/main/java/ch/mimo/netty/handler/codec/icap/AbstractIcapMessage.java:111-114 | Returns the version given to the constructor or last set by setProtocolVersion |
| IcapMessages.IcapMessage.GetHttpRequest | src/main/java/ch/mimo/netty/handler/codec/icap/AbstractIcapMessage.java:127-130 | Returns the embedded request last set, null on a new message; under the type invariant it is a request |
| IcapMessages.IcapMessage.GetHttpResponse | src/main/java/ch/mimo/netty/handler/codec/icap/AbstractIcapMessage.java:143-146 | Returns the embedded response last set, null on a new message; under the type invariant it is a response |
| IcapMessages.IcapMessage.GetEncapsulatedHeader | src/main/java/ch/mimo/netty/handler/codec/icap/AbstractIcapMessage.java:159-162 | Returns the Encapsulated descriptor last set, none on a new message |
| IcapMessages.IcapMessage.ContainsHttpRequest | src/main/java/ch/mimo/netty/handler/codec/icap/AbstractIcapMessage.java:122-130 | Holds exactly when getHttpRequest is non-null |
| IcapMessages.IcapMessage.ContainsHttpResponse | src/main/java/ch/mimo/netty/handler/codec/icap/AbstractIcapMessage.java:138-146 | Holds exactly when getHttpResponse is non-null |
| IcapMessages.IcapMessage.GetBodyType | src/main/java/ch/mimo/netty/handler/codec/icap/AbstractIcapMessage.java:174-180 | With an Encapsulated descriptor set, the body type is the descriptor's body entry; without one it is the setBody value |
| IcapMessages.IcapMessage.SetPreviewHeader | src/main/java/ch/mimo/netty/handler/codec/icap/AbstractIcapMessage.java:82-98 | After the Preview header is set, getPreviewAmount reports the value, and the message is a preview exactly when the value is non-negative |
| IcapMessages.IcapMessage.SetProtocolVersion | src/main/java/ch/mimo/netty/handler/codec/icap/AbstractIcapMessage.java:111-120 | getProtocolVersion returns what was set; the setter returns the message itself |
| IcapMessages.IcapMessage.SetHttpRequest | src/main/java/ch/mimo/netty/handler/codec/icap/AbstractIcapMessage.java:122-136 | The embedded request is replaced, and containsHttpRequest holds exactly when it is non-null; only that field changes |
| IcapMessages.IcapMessage.SetHttpResponse | src/main/java/ch/mimo/netty/handler/codec/icap/AbstractIcapMessage.java:138-151 | The embedded response is replaced, and containsHttpResponse holds exactly when it is non-null; only that field changes |
| IcapMessages.IcapMessage.SetEncapsulatedHeader | src/main/java/ch/mimo/netty/handler/codec/icap/AbstractIcapMessage.java:153-162 | getEncapsulatedHeader returns what was set. From then on, getBodyType is the descriptor's body entry, or the setBody value when the descriptor is null |
| IcapMessages.IcapMessage.SetBody | src/main/java/ch/mimo/netty/handler/codec/icap/AbstractIcapMessage.java:169-180 | The tag is stored. getBodyType shows it only while no Encapsulated descriptor is set; otherwise getBodyType is unchanged |
| IcapMessages.IcapMessage.Retain | src/main/java/ch/mimo/netty/handler/codec/icap/AbstractIcapMessage.java:254-264 | The message's count rises by 1, and each embedded entity's content buffer rises by 1 for every entity that holds it; nothing else changes |
| IcapMessages.IcapMessage.RetainBy | src/main/java/ch/mimo/netty/handler/codec/icap/AbstractIcapMessage.java:266-276 | The message's count rises by the increment, and each entity content buffer rises by it once for every entity that holds it |
| IcapMessages.IcapMessage.Release | src/main/java/ch/mimo/netty/handler/codec/icap/AbstractIcapMessage.java:231-240 | The message's count and, once per holding entity, each entity content buffer fall by 1; the result is true exactly when the message's count was 1 |
| IcapMessages.IcapMessage.ReleaseBy | src/main/java/ch/mimo/netty/handler/codec/icap/AbstractIcapMessage.java:242-252 | The message's count and, once per holding entity, each entity content buffer fall by the decrement; the result is true exactly when the old count equalled the decrement |
| IcapMessages.IcapMessage.Touch | src/main/java/ch/mimo/netty/handler/codec/icap/AbstractIcapMessage.java:278-287 | Returns the message itself and changes nothing |
| IcapMessages.IcapMessage.TouchWithHint | src/main/java/ch/mimo/netty/handler/codec/icap/AbstractIcapMessage.java:289-298 | Returns the message itself and changes nothing |
| IcapMessages.RetainThenReleaseRestores | src/main/java/ch/mimo/netty/handler/codec/icap/AbstractIcapMessage.java:242-276 | retain(n) then release(n) restores the message's count and every entity content buffer's count; that release reports zero only when the count was 0 before |
| IcapMessages.ByteBuf.ReadRetainedSlice | src/main/java/ch/mimo/netty/handler/codec/icap/IcapChunkSeparator.java:73-77 | The slice is the next `length` readable bytes. They leave the buffer. The shared reference count rises by one |
| IcapChunkSeparator.GetUseOriginalBody | src/main/java/ch/mimo/netty/handler/codec/icap/IcapChunkSeparator.java:121-127 | A value is reported exactly for a response that carries one; a request always reports none |
| IcapChunkSeparator.ChosenBuffer | src/main/java/ch/mimo/netty/handler/codec/icap/IcapChunkSeparator.java:97-119 | The buffer the separator picks is null exactly when SelectBody chooses nothing. Otherwise it holds exactly the chosen bytes and is the buffer of the entity the tag names: the response's own content for OPTBODY, the HTTP response's content for RESBODY, the HTTP request's content for REQBODY |
| IcapChunkSeparator.SelectBodyIsFirstEligible | src/main/java/ch/mimo/netty/handler/codec/icap/IcapChunkSeparator.java:97-119 | The chosen body is the first eligible source in the order OPTBODY, RESBODY, REQBODY; nothing is chosen exactly when no source is eligible |
| IcapChunkSeparator.EmptyStandaloneContentIsStillChosen | src/main/java/ch/mimo/netty/handler/codec/icap/IcapChunkSeparator.java:98-105 | A response's own content is chosen even when empty; nothing follows the head then unless the message is a preview or has Use-Original-Body |
| IcapChunkSeparator.ChunksConcat | src/main/java/ch/mimo/netty/handler/codec/icap/IcapChunkSeparator.java:71-81 | Concatenating the chunks in order gives the body back |
| IcapChunkSeparator.ChunkSizes | src/main/java/ch/mimo/netty/handler/codec/icap/IcapChunkSeparator.java:73-77 | Every chunk is non-empty and at most chunkSize long; all but the last are exactly chunkSize |
| IcapChunkSeparator.ChunkAt | src/main/java/ch/mimo/netty/handler/codec/icap/IcapChunkSeparator.java:71-81 | Chunk i is the body's bytes from i*chunkSize up to the lesser of (i+1)*chunkSize and the body length |
| IcapChunkSeparator.ChunkCount | src/main/java/ch/mimo/netty/handler/codec/icap/IcapChunkSeparator.java:71-81 | A body of length L gives exactly ceil(L / chunkSize) chunks |
| IcapChunkSeparator.ChunkFramesAt | src/main/java/ch/mimo/netty/handler/codec/icap/IcapChunkSeparator.java:71-81 | Each slice becomes one chunk frame in order, carrying the preview and early-termination flags |
| IcapChunkSeparator.BodyFramesShape | src/main/java/ch/mimo/netty/handler/codec/icap/IcapChunkSeparator.java:64-88 | After the head come exactly the chunks, in order and with shared flags. If a trailer is due, one trailer follows as the last frame and carries getUseOriginalBody. Early termination means a preview whose body is shorter than the preview amount |
| IcapChunkSeparator.NothingFollowsTheHeadWhen | src/main/java/ch/mimo/netty/handler/codec/icap/IcapChunkSeparator.java:63-88 | Nothing follows the head exactly when no source is chosen or no trailer is due; an embedded entity's body always brings a trailer |
| IcapChunkSeparator.TrailerExactlyWhen | src/main/java/ch/mimo/netty/handler/codec/icap/IcapChunkSeparator.java:70-88 | A trailer is written exactly when a source was chosen and its body is non-empty, a Use-Original-Body value is set, or the message is a preview |
| IcapChunkSeparator.OptionsResponseExample | src/main/java/ch/mimo/netty/handler/codec/icap/IcapChunkSeparator.java:71-88 | A 130-byte response body with chunk size 64 gives chunks of 64, 64 and 2 bytes and one plain trailer |
| IcapChunkSeparator.UseOriginalBodyZeroExample | src/main/java/ch/mimo/netty/handler/codec/icap/IcapChunkSeparator.java:107-111 | A Use-Original-Body value of 0 counts as set: an empty HTTP response body is still sent, as a lone trailer that carries 0 |
| IcapChunkSeparator.ChunkSeparator.constructor | src/main/java/ch/mimo/netty/handler/codec/icap/IcapChunkSeparator.java:49-51 | The separator keeps the given chunk size |
| IcapChunkSeparator.ChunkSeparator.Write | src/main/java/ch/mimo/netty/handler/codec/icap/IcapChunkSeparator.java:54-95 | Anything other than an ICAP message is forwarded unchanged. A message is written as its head followed by BodyFrames of its state before the call. Of the message only the body tag changes, to the chosen element. The chosen buffer is drained and its count rises by the number of chunks. Every other buffer is unchanged |
| IcapChunkSeparator.ChunkSeparator.WriteMessage | src/main/java/ch/mimo/netty/handler/codec/icap/IcapChunkSeparator.java:55-90 | Writes the head and BodyFrames of the old state. The chosen buffer (ChosenBuffer) is drained, and its count ends up raised by the number of chunks. The message's body tag becomes the chosen element. Other buffers are untouched |
| IcapChunkSeparator.ChunkSeparator.WriteChunks | src/main/java/ch/mimo/netty/handler/codec/icap/IcapChunkSeparator.java:71-81 | The loop writes exactly the chunk frames of the buffer's old bytes and leaves the buffer empty. The count rises by one per chunk |
| IcapChunkSeparator.ChunkSeparator.SetBodyTypeAndGetContent | src/main/java/ch/mimo/netty/handler/codec/icap/IcapChunkSeparator.java:97-119 | The buffer returned is ChosenBuffer, the one behind SelectBody's choice, or null when none is eligible. The body tag is set to the chosen element, or left alone when nothing is chosen |
| IcapChunkSeparator.ZeroChunkSizeNeverDrains | src/main/java/ch/mimo/netty/handler/codec/icap/IcapChunkSeparator.java:71-81 | With chunk size 0, any number of passes of the loop body leaves a non-empty buffer as it was, so the loop never ends |
| IcapChunkSeparator.PositiveChunkSizeDrains | src/main/java/ch/mimo/netty/handler/codec/icap/IcapChunkSeparator.java:71-81 | With a positive chunk size the buffer is empty after exactly as many passes as there are chunks, and not before |
| IcapDecoding.CheckLimits | src/main/java/ch/mimo/netty/handler/codec/icap/IcapMessageDecoder.java:33-47 | The limits pass exactly when the initial-line and header limits are positive and the chunk limit is non-negative. Otherwise the first failing check is reported with its value |
| IcapDecoding.DefaultLimitsAreAccepted | src/main/java/ch/mimo/netty/handler/codec/icap/IcapMessageDecoder.java:26-28 | The defaults 4096, 8192, 8192 pass the checks |
| IcapDecoding.DecodeStep | src/main/java/ch/mimo/netty/handler/codec/icap/IcapMessageDecoder.java:50-83 | What is left is a suffix of the input. The message changes only when moving to READ_ICAP_HEADER. In that state the current message is returned, and a returned message means that state |
| IcapDecoding.ShortInitialLineResyncs | src/main/java/ch/mimo/netty/handler/codec/icap/IcapMessageDecoder.java:60-66 | An initial line of fewer than three tokens returns null, goes back to SKIP_CONTROL_CHARS and keeps the old message |
| IcapDecoding.ValidInitialLineYieldsNewMessage | src/main/java/ch/mimo/netty/handler/codec/icap/IcapMessageDecoder.java:52-70 | From SKIP_CONTROL_CHARS, a line of three or more tokens returns the message createMessage makes of them and stops in READ_ICAP_HEADER holding it |
| IcapDecoding.FailedCreationKeepsMessage | src/main/java/ch/mimo/netty/handler/codec/icap/IcapMessageDecoder.java:60-69 | When createMessage throws, decode ends with that exception, keeps the old message and stays in READ_ICAP_INITIAL from just after the skipped bytes |
| IcapDecoding.ExhaustedSkipConsumesAll | src/main/java/ch/mimo/netty/handler/codec/icap/IcapMessageDecoder.java:52-59 | A skip that runs out of input keeps what it consumed: nothing is left, and the state stays SKIP_CONTROL_CHARS with the message unchanged |
| IcapDecoding.SkipIsCheckpointed | src/main/java/ch/mimo/netty/handler/codec/icap/IcapMessageDecoder.java:52-62 | After a completed skip, an incomplete or too-long initial line leaves the decoder in READ_ICAP_INITIAL with the message unchanged and the input from just after the skipped bytes still to read |
| IcapDecoding.HeaderStateConsumesNothing | src/main/java/ch/mimo/netty/handler/codec/icap/IcapMessageDecoder.java:71-82 | In READ_ICAP_HEADER nothing is consumed and the current message is returned |
| IcapDecoding.CreatedMessageHasBoundedInitialLine | src/main/java/ch/mimo/netty/handler/codec/icap/IcapMessageDecoder.java:60-69 | A created message comes from an initial line of at most maxInitialLineLength characters that split into at least three tokens, and is what createMessage made of them |
| IcapDecoding.IcapMessageDecoder.constructor | src/main/java/ch/mimo/netty/handler/codec/icap/IcapMessageDecoder.java:33-47 | Accepted limits are stored, and the decoder starts in SKIP_CONTROL_CHARS with no message |
| IcapDecoding.IcapMessageDecoder.Default | src/main/java/ch/mimo/netty/handler/codec/icap/IcapMessageDecoder.java:26-28 | The no-argument decoder has limits 4096, 8192 and 8192 and starts in SKIP_CONTROL_CHARS |
| IcapDecoding.IcapMessageDecoder.Create | src/main/java/ch/mimo/netty/handler/codec/icap/IcapMessageDecoder.java:33-47 | A decoder is built exactly when the limits pass; otherwise the IllegalArgumentException case is reported |
| IcapDecoding.IcapMessageDecoder.Decode | src/main/java/ch/mimo/netty/handler/codec/icap/IcapMessageDecoder.java:50-83 | The result, the new state, the new message and the input left after the last checkpoint are those that DecodeStep gives |
| BodyProcessing.OnEntry | src/main/java/ch/mimo/netty/handler/codec/icap/BodyProcessingDecisionState.java:8-12 | Fails exactly when the decoder holds no message |
| BodyProcessing.Execute | src/main/java/ch/mimo/netty/handler/codec/icap/BodyProcessingDecisionState.java:15-20 | A preview message gives an irrelevant result; any other gives a relevant result carrying the message |
| BodyProcessing.OnExit | src/main/java/ch/mimo/netty/handler/codec/icap/BodyProcessingDecisionState.java:23-28 | A preview message goes to PREVIEW_STATE, any other to READ_CHUNK_SIZE_STATE |
| BodyProcessing.Decide | src/main/java/ch/mimo/netty/handler/codec/icap/BodyProcessingDecisionState.java:8-28 | Running the three callbacks fails exactly when there is no message. Otherwise the next state is PREVIEW_STATE exactly for a preview message, and the message itself is passed on exactly when the next state is READ_CHUNK_SIZE_STATE |
| BodyProcessing.ExecuteAgreesWithOnExit | src/main/java/ch/mimo/netty/handler/codec/icap/BodyProcessingDecisionState.java:15-28 | The message is passed on exactly when the next state is READ_CHUNK_SIZE_STATE; that is, exactly when its preview value is negative |

## Left out

- IcapChunkSeparator.ChunkSeparator.Write: requires a positive chunk size for every ICAP message. The constructor accepts any integer. With 0 the loop slices empty chunks forever (see Findings), and with a negative size Netty's readRetainedSlice throws. At a chunk size of 0 or less, write also ends normally when no body source is chosen or the chosen body is empty, because the loop at IcapChunkSeparator.java:71 never runs; those runs are excluded by the same requires and are not modelled either.
- The channel pipeline is not modelled: flush, writeAndFlush versus write, promises and the debug logging. A write appends a frame to the returned sequence.
- Netty's own ByteBuf is reduced to readable bytes and a reference count. Its checks are not modelled: the exception on releasing more than it holds or on an overflowing retain, the exception that `retain(int)` and `release(int)` throw on an argument that is not positive, and freeing memory at 0. So `RetainBy(0)` or `ReleaseBy(-1)` on a message with an embedded entity returns normally in the model, where Netty throws once the call reaches the entity. The message's own count, like the Java field, is unguarded.
- The embedded FullHttpRequest/FullHttpResponse are modelled as Netty's default full messages, whose content is never null. The separator's `content() != null` tests (IcapChunkSeparator.java:108 and :113) therefore always hold in the model. Another implementation that returns null content is not modelled.
- IcapMessages.IcapMessage.RetainBy, Retain, ReleaseBy, Release: the message's count is an unbounded integer. The 32-bit wrap-around of the Java `int` field (AbstractIcapMessage.java:35) after 2^31 - 1 retains is not modelled.
- The ICAP header container (IcapHeaders) is reduced to the Preview value it reports, -1 meaning no Preview header. Header get/add/set/remove/clear and the header iteration are not modelled; `SetPreviewHeader` stands for setting that header.
- The Encapsulated descriptor is reduced to the body entry that containsBodyEntry reports. Its parsing and encoding belong to a class that is not part of this model.
- IcapResponse's own content and Use-Original-Body value are fields of the model's message (null on a request). Their setters `SetContent` and `SetUseOriginalBody` are stand-ins for that class, which is not part of this model.
- Touch, TouchWithHint: the leak-detection hints given to the embedded entities are not modelled, because the model's entities keep no hints.
- toString and appendHeaders (text rendering) are not modelled.
- The `volatile` count and thread safety are not modelled.
- Reading the message's fields through its getters is modelled by reading the fields directly in the pure spec (View).
- The separator's aliasing is modelled only in part: the same buffer shared by two entities is allowed, but the model does not track slices sharing memory with their parent beyond the shared count.
- ReplayingDecoder, the Netty base class of the decoder, is only partly modelled:
  - its replay-on-missing-input is modelled as a NeedMoreInput result with the input rewound to the last checkpoint;
  - the cumulation buffer, its repeated calls to decode and its own checks on results that consume nothing are not modelled.
- IcapDecoding.DecodeStep: two cases end decoding with an error: an initial line that is too long, and createMessage throwing (IcapMessageDecoder.java:68), which happens after readLine at :61 has already consumed the line. In both, the position of the reader index after the error is not modelled; the model reports the input from the last checkpoint (LineTooLong, and MessageCreationFailed in `FailedCreationKeepsMessage`).
- The bodies of IcapDecoderUtil (skipControlCharacters, readLine, splitInitialLine) are not part of this model. They are functions given to the decoder, and HonestUtil states the only properties used: they consume input, and a line respects its limit.
- createMessage and isDecodingRequest are the decoder's abstract hooks. createMessage is a function given to the decoder, with None standing for the exception it may throw; isDecodingRequest is not modelled.
- maxHeaderSize and maxChunkSize are validated and stored but used by nothing in the modelled code, as in the source.
- BodyProcessing.Execute, OnExit, Decide, ExecuteAgreesWithOnExit: the `message.isPreview()` these callbacks call (BodyProcessingDecisionState.java:16 and :24) belongs to a message interface that is not part of this model. The model takes it to be isPreviewMessage, a non-negative Preview value (AbstractIcapMessage.java:164-167), so "preview" in their contracts means exactly that.
- BodyProcessingDecisionState comes from another revision of the decoder, in which the state framework calls onEntry, execute and onExit and the decoder's message is visible to it. `Decide` models that sequence; the surrounding state framework (State, StateEnum and the driving loop) is not part of this model.

## Findings

| source | as written | input that shows it | evidently intended | confidence | as-written member | corrected member |
|---|---|---|---|---|---|---|
| src/main/java/ch/mimo/netty/handler/codec/icap/IcapChunkSeparator.java:49-51 | The constructor accepts any chunk size, and the loop at lines 71-81 takes `readRetainedSlice(chunkSize)` whenever more than chunkSize bytes remain | chunkSize 0 and a message with a non-empty body: every pass slices 0 bytes, so the loop never ends | A chunk size of at least 1, so that the loop drains the body in ceil(L / chunkSize) passes | not executed; medium (the source states no bound) | IcapChunkSeparator.ZeroChunkSizeNeverDrains | IcapChunkSeparator.PositiveChunkSizeDrains |

The rest of the model uses the corrected reading: `ChunkSeparator.Write` requires a positive chunk size, and `WriteChunks` is proved to end.
