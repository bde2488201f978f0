# motion connectors, verified

A Dafny model of the parts of the motion connectors that turn untrusted bytes into ordered, complete
motion frames, and proofs of what those parts promise. `dafny verify dfyconfig.toml` checks everything.

What is modelled, hardest first:

- **The WebSocket connection.** The frame printer and the resumable frame reader, the handshake in both
  directions, the three-phase session and the outbound queue with its partial writes (`Frames`,
  `FrameLanguage`, `FrameReader`, `FrameStream`, `Handshake`, `HandshakeRules`, `Session`, `SessionStream`,
  `Outbox`), and two ends joined by a byte pipe each way (`Link`, `LinkProgress`). `Link.EveryScheduleIsFaithful`
  speaks of every schedule of offers, writes, reads, pings and departures, from the first byte of the handshake;
  `LinkProgress.EverythingArrives` says that while nobody leaves, none of them gets stuck.
- **The two kinematic transformations.** The mocopi rig collapsed onto the humanoid (`MocopiSkeleton`,
  `MocopiMapping`, `MocopiRecords`) and the solve of local rotations from world observations (`TrackerSolve`, on the
  assignments of `TrackerAssignment`, told again by the humanoid's own fields in `TrackerFields`). Both are
  proved against forward kinematics over any table of joints whose parents come first and any group of
  rotations (`Kinematics`).
- **OSC 1.0** (`OscPacket`, `OscCodec`, `OscRefusals`): the decoder as it is written, the language it reads
  written out on the bytes, its inverse for every nesting of bundles, and why it refuses all else.
- **Frame assemblers** for VMC, VRChat and mocopi, and the acceptance of relayed frames (`VmcFrames`,
  `VmcRuns`, `VmcAssembler`, `VrchatFrames`, `VrchatSessions`, `VrchatAssembler`, `MocopiFrames`,
  `RelayFrames`), with their promises over whole runs. `VmcArrivals`, `VrchatArrivals`, `MocopiAccount` and
  `RelayAccount` tell each of them once more from its events alone: what befalls every arrival, and that
  frames, log and counts are what comes of it.
- **Readers and writers that undo each other**: the mocopi container and its packets (`PacketChunks`,
  `MotionPackets`), with everything that can be rearranged in one without changing what it says
  (`MotionVariants`), recorded captures (`PacketCapture`, `CaptureRoundTrip`, `CaptureReading`), the wire's
  frame codec over the JSON value tree (`WireTree`, `FrameWire`, `WireLanguage`, `WireReader`,
  `WireRoundTrip`, `WireReading`) and tracker statements (`TrackerAssignment`).
- **The two UTF-8 validators**, and the repair of invalid text (`Utf8`).

How it is built. Where the program changes an object step by step there is a class with the same fields,
and each of its methods is proved to compute a pure step function on the abstract state; a ghost ledger of
everything accepted and closed so far rides beside it where a promise is about a whole run. The promises
are then lemmas about the step functions, over every input or every run. Where such a function decides what
is accepted, a language or an account beside it says the same without it: on the bytes, characters or keys
as the format writes them, or on the events of a run alone. `Resumable` isolates what a byte
machine needs for its events not to depend on how its input is cut.

Conventions:

- Bytes are integers below 256; masking goes through exclusive or on their bits. `std::size_t` subtraction,
  the 32-bit Base64 accumulator, the 32-bit frame counter and the 64-bit frame numbers wrap as the program's
  do, and the lemmas say where that shows.
- Rotations are elements of a group and rest transforms rigid motions over it; a decoded quaternion is
  already its normalised group element, or is marked as naming no orientation.
- Timestamps are real numbers, so a clock is finite by hypothesis. The mocopi decoder checks that
  (`MotionPacket.cpp:412`); the VMC decoder stores the clock as it came (`VmcMessage.cpp:178`), and a sender
  whose clock is not a number is outside what is proved of `VmcRuns`.
- A capture's receive times are exact decimals, read in any spelling and written to the nearest
  microsecond. Floats on a wire are bits with a meaning given as a parameter.
- SHA-1 is any function from text to bytes; masks and nonces are any sequence.
- The humanoid vocabulary's numbering, the JSON layer's number and text printing and the values an unset
  field starts with are parameters, because the headers that fix them are not part of this model.

Where code and comment differ, the code is modelled. `FrameAssembler.cpp` of the mocopi connector marks a
frame as beginning a session when a restart was just seen or one is pending; the first half never happens
for an emitted frame (`MocopiFrames.RestartIsNotEmitted`). Its count of lost frames is exact except when
the 32-bit counter passes its top inside a gap (`MocopiFrames.LostIsSkipped` states exactly when, over every
run, and `MocopiFrames.GapGoesUncounted` is a run where it does). A capture, its times
taken exactly, survives rewriting exactly when they are whole microseconds (`CaptureReading.RewrittenIsReadBack`, `CaptureReading.FineTimeIsLost`). The
truncated-size branch of the OSC bundle loop and the padding check of its strings are unreachable, as
their comments say (`OscRefusals.RefusalIsInside`, `OscRefusals.PaddingNeverOverruns`).

## Model

Every row's member is proved; the last column is what its contract says.

| member | source | states |
|---|---|---|
| `Link.EveryScheduleIsFaithful` | libs/motionConnectorWebSocket/src/Session.cpp:43-203 | For every schedule of offered texts, partial socket writes and reads, pings and departures, from the first byte of the handshake: the texts each end hears are a beginning of the texts the other started, whole and in order; no end ever meets a refused handshake or a framing fault; and what was offered is exactly what was sent, dropped or still queued |
| `Link.DeliveredIsHeard` | libs/motionConnectorWebSocket/src/Session.cpp:58-167 | Once everything printed has been read and neither end is over, both ends are open and each has heard every text the other started |
| `LinkProgress.EverythingArrives` | libs/motionConnectorWebSocket/src/Session.cpp:43-203 | However far a schedule in which nobody leaves has got: six moves of the two sockets alone, and both ends are open, both queues are empty, and each end has heard, whole and in order, all the other ever started and all it had still queued, none of it dropped |
| `LinkProgress.StaysUp` | libs/motionConnectorWebSocket/src/Session.cpp:43-203 | A schedule in which nobody leaves ends neither session: no close frame is ever printed, whatever the cuts, pings and queues |
| `LinkProgress.HearingKeepsUp` | libs/motionConnectorWebSocket/src/Session.cpp:102-166 | An end that has not left is over only if its peer is |
| `LinkProgress.ReadIsHeard` | libs/motionConnectorWebSocket/src/Session.cpp:58-167 | One end that has read all its peer printed is open and has heard every text the peer started, whatever is still under way the other way |
| `LinkProgress.Emptying` | libs/motionConnectorWebSocket/src/Endpoint.cpp:453-499 | There are write results under which a flush leaves nothing owed and, of an open session, nothing queued: every queued text is started, in order, and none dropped |
| `Link.ReachableKeeps` | libs/motionConnectorWebSocket/src/Session.cpp:43-203 | The invariant behind both: all an end has printed is its head and then frames the other end accepts, what its socket took is a prefix of that, its session is in the state its input so far determines, and its queue is accounted for |
| `Link.MoveKeeps` | libs/motionConnectorWebSocket/src/Session.cpp:43-203 | Each single move of either end keeps that invariant, and the fate of a text once settled stays what it was |
| `Link.FatesAreFinal` | libs/motionConnectorWebSocket/src/Endpoint.cpp:453-607 | However a schedule goes on, a text that was sent stays sent and one that was dropped stays dropped: the fates only extend, and so do the texts each end started |
| `Link.EndHears` | libs/motionConnectorWebSocket/src/Session.cpp:58-167 | One end hears a prefix of what its peer started, and all of it when everything printed was delivered and no close frame was printed |
| `Link.PrintedSpeaks` | libs/motionConnectorWebSocket/src/Session.cpp:61-166 | All that a peer has printed, read whole, opens the session, gives no fault and gives its started texts in order, every one unless a close frame comes |
| `Link.FlushKeepsBox` | libs/motionConnectorWebSocket/src/Endpoint.cpp:453-499 | Flushing, under any script of write results, keeps printed = taken + owed and starts only the oldest queued text |
| `Outbox.FlushAccounts` | libs/motionConnectorWebSocket/src/Endpoint.cpp:453-499 | However writes are cut, a flush drops nothing: the offered texts stay split into sent, dropped and queued, earlier fates unchanged |
| `Outbox.EnqueueAccounts` | libs/motionConnectorWebSocket/src/Endpoint.cpp:589-607 | Enqueuing on a full queue drops only texts that have not started, oldest first, never touches a started one, and keeps the queue within its bound |
| `Outbox.FlushReaches` | libs/motionConnectorWebSocket/src/Endpoint.cpp:453-499 | How far a flush comes under any script of writes: each write takes as much as the socket allows of one message at a time; it ends only when the socket complains, the script ends or nothing is left; a waiting text starts if and only if all before it was taken and the socket had not complained; and exactly the bytes reached are taken |
| `Outbox.EnqueueKeepsLatest` | libs/motionConnectorWebSocket/src/Endpoint.cpp:589-607 | A full queue keeps its latest texts, as many as leave room for the new one, and counts each that it drops |
| `Outbox.QueueIsBounded` | libs/motionConnectorWebSocket/src/Endpoint.cpp:589-607 | As many texts can wait as the configured bound says, and one where it says zero |
| `Outbox.Peer.Enqueue` | libs/motionConnectorWebSocket/src/Endpoint.cpp:589-607 | The loop computes that enqueuing, for an open session only |
| `Outbox.Peer.Flush` | libs/motionConnectorWebSocket/src/Endpoint.cpp:453-499 | The loop computes the flush for every script of partial, blocked and failed writes |
| `Session.SessionChunkingIsInvisible` | libs/motionConnectorWebSocket/src/Session.cpp:43-167 | Every split of a byte stream into Receive calls, drained after each, gives the events, fault offsets, owed replies and state of one Receive of the whole |
| `Session.ServingIsResumable` | libs/motionConnectorWebSocket/src/Session.cpp:58-167 | At every state more input changes neither an event already due nor the state reached while waiting |
| `Session.LongHeadIsRefused` | libs/motionConnectorWebSocket/src/Session.cpp:61-79 | A head that ends past the bound and one not ended at the bound are both refused, without an answer, and end the session |
| `Session.StopsTheReader` | libs/motionConnectorWebSocket/src/Rfc6455.cpp:738-925 | A close or a fault leaves the reader stopped |
| `Session.Connection.constructor` | libs/motionConnectorWebSocket/src/Session.cpp:25-41 | A client owes its upgrade request from the start, a server nothing |
| `Session.Connection.Take` | libs/motionConnectorWebSocket/src/Session.cpp:43-56 | Bytes go to the head buffer, to the reader, or nowhere, by phase |
| `Session.Connection.Next` | libs/motionConnectorWebSocket/src/Session.cpp:58-167 | The event, the new state and the bytes appended to the outbound buffer are those of the specification, masks drawn in sequence |
| `Session.Connection.Judge` | libs/motionConnectorWebSocket/src/Session.cpp:61-119 | The handshake phase: waits, refuses, or opens with the reader starting at the offset after the head |
| `Session.Connection.AnswerHead` | libs/motionConnectorWebSocket/src/Session.cpp:81-110 | What a head is answered with on either side, and the refusal it meets |
| `Session.Connection.Pump` | libs/motionConnectorWebSocket/src/Session.cpp:121-166 | The open phase: frames are taken until one gives an event; pings are answered on the way |
| `Session.Connection.HearOnce` | libs/motionConnectorWebSocket/src/Session.cpp:123-165 | One reader event and the session reaction to it, the reader left with fewer unread bytes |
| `Session.Connection.Respond` | libs/motionConnectorWebSocket/src/Session.cpp:129-164 | Pong for a ping, the echoed close, the close for a fault; each ends or keeps the session as specified |
| `Session.Connection.Print` | libs/motionConnectorWebSocket/src/Session.cpp:188-203 | One unfragmented frame, masked with the next key on a client only |
| `Session.Connection.SendText` | libs/motionConnectorWebSocket/src/Session.cpp:169-176 | A text is printed when open and ignored otherwise |
| `Session.Connection.Shut` | libs/motionConnectorWebSocket/src/Session.cpp:178-186 | A close frame when open, and the session ends |
| `SessionStream.StreamIsServed` | libs/motionConnectorWebSocket/src/Session.cpp:58-167 | A head the session accepts followed by any stream of frames, conforming or not, gives the opening and what those frames spell up to the first close or fault; what the session then owes is one pong for each ping heard with its payload, and one close: the peer's own two status bytes, or for a fault the status of its kind written out |
| `SessionStream.ConformingIsAnswered` | libs/motionConnectorWebSocket/src/Session.cpp:129-164 | For a conforming stream the replies are, in order, one pong for each ping before the close with that ping's payload, then one close with the peer's two status bytes, empty when it sent none |
| `SessionStream.ConformingIsServed` | libs/motionConnectorWebSocket/src/Session.cpp:58-167 | A head the session accepts followed by conforming frames gives the opening and exactly the events the frames spell, no fault, and those replies after the answer to the head |
| `SessionStream.OpenDrains` | libs/motionConnectorWebSocket/src/Session.cpp:121-166 | Any bytes given to an open session: its events, the replies it comes to owe and whether it goes on, told from the frames in the bytes |
| `SessionStream.DrainOwesFrames` | libs/motionConnectorWebSocket/src/Session.cpp:121-166 | Past the handshake a session only comes to owe short pong and readable close frames, a close it owes ends it, and an ended session owes nothing more |
| `SessionStream.ServerGreets` | libs/motionConnectorWebSocket/src/Session.cpp:61-119 | A server accepts the request a client of this repository writes for its path, whatever follows it and however it is cut |
| `SessionStream.ClientGreets` | libs/motionConnectorWebSocket/src/Session.cpp:61-119 | A client accepts the answer to its own key, whatever follows it and however it is cut |
| `SessionStream.DeliveryOwes` | libs/motionConnectorWebSocket/src/Session.cpp:43-167 | One more delivery adds to what is owed only good frames, or first the answer to the head |
| `Handshake.RequestIsAccepted` | libs/motionConnectorWebSocket/src/Rfc6455.cpp:491-569 | The written request, for any host, path and 16-byte nonce, is answered 101 with the accept value of its key |
| `HandshakeRules.RequestIsAnswered` | libs/motionConnectorWebSocket/src/Rfc6455.cpp:491-569 | By its fields alone: 403 if and only if there is an Origin and it is not one of a single Origin field that the allow list has, else 404 if and only if the target is another path, else 101 if and only if the method, the two upgrade words, the one Host, the one version 13, the one key of sixteen bytes and the subprotocol are there, else 400; each answer byte for byte, with the accept value of its key |
| `HandshakeRules.HeadIsAnswered` | libs/motionConnectorWebSocket/src/Rfc6455.cpp:435-569 | Every head is answered: by those rules where it spells a request, and 400 exactly where it spells none |
| `HandshakeRules.HeadIff` | libs/motionConnectorWebSocket/src/Rfc6455.cpp:87-133 | A text is read as a head if and only if it is a start line, field lines of a token, a colon and a value between blanks, and an empty line; names are lowered and values trimmed |
| `HandshakeRules.AnswerIsJudged` | libs/motionConnectorWebSocket/src/Rfc6455.cpp:463-646 | A client takes an answer if and only if it is a 101 with both upgrade words, its own key's accept value, the one subprotocol and no extension, and learns the status of every other |
| `HandshakeRules.HeadEndIs` | libs/motionConnectorWebSocket/src/Rfc6455.cpp:428-433 | The head ends behind the first empty line, wherever that is |
| `HandshakeRules.WrittenInFull` | libs/motionConnectorWebSocket/src/Rfc6455.cpp:571-598 | What each end writes, line by line: the request, the granting answer and the four refusals |
| `Handshake.AnswerIsForItsKey` | libs/motionConnectorWebSocket/src/Rfc6455.cpp:600-646 | A client takes a written answer if and only if the key it was given to hashes as the client's own key does |
| `Handshake.ResponseIsAccepted` | libs/motionConnectorWebSocket/src/Rfc6455.cpp:600-646 | A client accepts the answer to its own key |
| `Handshake.MessageReads` | libs/motionConnectorWebSocket/src/Rfc6455.cpp:87-117 | A written head parses to its start line and its fields, names lowered and values trimmed |
| `Handshake.RequestHeadEnd` | libs/motionConnectorWebSocket/src/Rfc6455.cpp:428-433 | In a stream that begins with the request the head ends exactly where the request does |
| `Handshake.ResponseHeadEnd` | libs/motionConnectorWebSocket/src/Rfc6455.cpp:428-433 | In a stream that begins with the answer the head ends exactly where the answer does |
| `Handshake.HeadEndIsStable` | libs/motionConnectorWebSocket/src/Rfc6455.cpp:428-433 | A head end once found stays, and one found later lies past all that was there before |
| `Handshake.ResponseIsShort` | libs/motionConnectorWebSocket/src/Rfc6455.cpp:571-583 | With a 20-byte digest the answer fits the head bound |
| `Frames.ParseOfEncoded` | libs/motionConnectorWebSocket/src/Rfc6455.cpp:652-689 | A printed frame, whatever follows it, parses to its opcode, payload, fin and mask, for every length class, unless the reader's own state refuses that frame |
| `Frames.EncodeOfParsed` | libs/motionConnectorWebSocket/src/Rfc6455.cpp:753-880 | The bytes of every accepted frame are exactly what the printer writes for its parsed fields, masked exactly when the reader's side requires it, and the reader's state has nothing against it |
| `FrameLanguage.ParsedIffTaken` | libs/motionConnectorWebSocket/src/Rfc6455.cpp:753-880 | The accepted language outright: bytes parse to a frame if and only if they begin with what spells it bit by bit in the layout of section 5.2 of RFC 6455, it is masked exactly when the side requires it, no longer than the section allows a control frame, not text twice nor a continuation of nothing, not binary, and fits beside the held fragment |
| `FrameLanguage.RefusedIffHopeless` | libs/motionConnectorWebSocket/src/Rfc6455.cpp:753-880 | Bytes are refused if and only if no bytes that follow could make of them a frame the reader takes; two bytes with the wrong mask bit already are |
| `FrameLanguage.RefusedFor` | libs/motionConnectorWebSocket/src/Rfc6455.cpp:753-870 | Which fault a refusal is: a data frame larger than the room is too big, binary is unsupported data, and all else a protocol violation |
| `FrameLanguage.EncodeSpells` | libs/motionConnectorWebSocket/src/Rfc6455.cpp:652-689 | What the printer writes spells its frame bit by bit |
| `FrameLanguage.SpellingIsUnique` | libs/motionConnectorWebSocket/src/Rfc6455.cpp:652-689 | No two byte strings spell one frame |
| `Frames.ParseIsStable` | libs/motionConnectorWebSocket/src/Rfc6455.cpp:753-880 | A verdict once reached never changes with more bytes |
| `Frames.LengthFieldUnique` | libs/motionConnectorWebSocket/src/Rfc6455.cpp:805-834 | An accepted length field is the one minimal field for its length, top bit clear |
| `Frames.WaitingIsBounded` | libs/motionConnectorWebSocket/src/Rfc6455.cpp:753-870 | While the reader waits, held fragment plus unread bytes stay below the message bound plus 131 |
| `Frames.ParsedFits` | libs/motionConnectorWebSocket/src/Rfc6455.cpp:836-862 | A data frame that parses fits beside the held fragment within the message bound |
| `Frames.MaskedTwice` | libs/motionConnectorWebSocket/src/Rfc6455.cpp:682-688 | Masking twice with one key restores the payload |
| `Frames.AppendFrame` | libs/motionConnectorWebSocket/src/Rfc6455.cpp:652-689 | The printer appends exactly the frame's encoding |
| `Frames.MaskInPlace` | libs/motionConnectorWebSocket/src/Rfc6455.cpp:683-688 | The masking loop masks the bytes from its start on and no other |
| `FrameReader.NextIsStable` | libs/motionConnectorWebSocket/src/Rfc6455.cpp:723-946 | Bytes that arrive later change neither an event already due nor the state reached while waiting |
| `FrameReader.ReadingIsResumable` | libs/motionConnectorWebSocket/src/Rfc6455.cpp:723-946 | The reader meets what chunking independence asks of a machine, at every state |
| `FrameReader.NextKeepsReachable` | libs/motionConnectorWebSocket/src/Rfc6455.cpp:718-946 | In every reachable state: the held fragment is within the bound, offset plus unread is base plus given, a waiting reader holds less than the bound plus 131, events point into the stream, and the reader stops exactly at a close or a fault |
| `FrameReader.BoundNeverWraps` | libs/motionConnectorWebSocket/src/Rfc6455.cpp:854-861 | In every reachable state the unsigned subtraction in the size check is the true one |
| `FrameReader.StoppedIsFinal` | libs/motionConnectorWebSocket/src/Rfc6455.cpp:723-760 | After a close or a fault nothing is delivered, whatever arrives |
| `FrameReader.Buffered.Receive` | libs/motionConnectorWebSocket/src/Rfc6455.cpp:723-736 | Compacting and appending keep the unread bytes in order; a stopped reader takes nothing |
| `FrameReader.Buffered.Look` | libs/motionConnectorWebSocket/src/Rfc6455.cpp:753-880 | Reading the header in the program's order reaches the specified verdict |
| `FrameReader.Buffered.Next` | libs/motionConnectorWebSocket/src/Rfc6455.cpp:753-946 | The loop gives the specified event and state |
| `FrameReader.Buffered.Take` | libs/motionConnectorWebSocket/src/Rfc6455.cpp:878-943 | One frame's effect on the held fragment, the offset and the stop flag |
| `FrameReader.Buffered.Control` | libs/motionConnectorWebSocket/src/Rfc6455.cpp:881-926 | Ping, pong and close: payload delivered, close payload checked for status and text |
| `FrameStream.ConformingIsHeard` | libs/motionConnectorWebSocket/src/Rfc6455.cpp:753-946 | A stream of frames that section 5 of RFC 6455 allows gives exactly the events the frames spell, stopping at a close, and never a fault; of whatever length |
| `FrameStream.StreamIsTold` | libs/motionConnectorWebSocket/src/Rfc6455.cpp:753-946 | Any frames, conforming or not, then any tail: the events heard are those of the frames taken, told one by one, then what the frame or the bytes that end the stream come to, with the offset of a fault |
| `FrameStream.EveryStreamIsTold` | libs/motionConnectorWebSocket/src/Rfc6455.cpp:753-946 | Every byte stream is such a stream of frames and a tail |
| `FrameStream.CutStreamIsHeard` | libs/motionConnectorWebSocket/src/Rfc6455.cpp:753-946 | Cut anywhere, it has given a prefix of those events and no fault |
| `FrameStream.FragmentsReassemble` | libs/motionConnectorWebSocket/src/Rfc6455.cpp:928-943 | However a message is cut into fragments, and whatever control frames come between, one message is heard, its pieces in order, exactly where its text is valid |
| `Resumable.ChunkingIsInvisible` | libs/motionConnectorWebSocket/src/Session.cpp:43-167 | For any machine whose steps ignore later input, every chunking gives the events and final state of the whole stream |
| `Resumable.PrefixOfStream` | libs/motionConnectorWebSocket/src/Session.cpp:43-167 | What a cut stream has given is a prefix of what the whole gives |
| `Bytes.XorCancel` | libs/motionConnectorWebSocket/src/Rfc6455.cpp:685-688 | Exclusive or with one byte twice restores a byte |
| `Bytes.BigEndianRoundTrip` | libs/motionConnectorWebSocket/src/Rfc6455.cpp:659-676 | A number that fits its width is read back from its big-endian bytes |
| `Bytes.FromBigEndianRoundTrip` | libs/motionConnectorWebSocket/src/Rfc6455.cpp:816-834 | Big-endian bytes are the one encoding, of their width, of the number they hold |
| `Base64.DecodedOfEncoded` | libs/motionConnectorWebSocket/src/Rfc6455.cpp:243-314 | Strict decoding undoes encoding for every byte sequence |
| `Base64.ThreeAreEncoded` | libs/motionConnectorWebSocket/src/Rfc6455.cpp:243-277 | Three bytes are the four digits, in the alphabet of RFC 4648, of their twenty-four bits |
| `Base64.SixteenBytes` | libs/motionConnectorWebSocket/src/Rfc6455.cpp:279-314 | What decodes to sixteen bytes is exactly twenty-two digits of the alphabet and two of padding |
| `Base64.Base64Encode` | libs/motionConnectorWebSocket/src/Rfc6455.cpp:243-277 | The encoding loop |
| `Base64.Base64Decode` | libs/motionConnectorWebSocket/src/Rfc6455.cpp:279-314 | The decoding loop, with its 32-bit accumulator that is never cleared, computes strict decoding |
| `Base64.AccumulatorWraps` | libs/motionConnectorWebSocket/src/Rfc6455.cpp:292-312 | The wrapping accumulator loses no bit that is still to be read |
| `Utf8.ValidIffScalars` | libs/motionConnectorWebSocket/src/Rfc6455.cpp:326-380 | Text passes exactly when it is a concatenation of encoded scalar values (sections 3 and 4 of RFC 3629) |
| `Utf8.ValidatorsAgree` | libs/motionConnectorCAbi/src/MotionConnector.cpp:352-385 | At every position the validator by byte ranges and the one by code points read the same length |
| `Utf8.RepairIsAProjection` | libs/motionConnectorCAbi/src/MotionConnector.cpp:403-418 | Repair always gives valid text, changes nothing exactly on valid text, and is idempotent |
| `Utf8.IsUtf8` | libs/motionConnectorWebSocket/src/Rfc6455.cpp:326-380 | The loop by code points decides validity |
| `Utf8.CodePointLength` | libs/motionConnectorWebSocket/src/Rfc6455.cpp:330-378 | One turn of that loop: the length of the well-formed sequence, or none |
| `Utf8.Utf8SequenceLength` | libs/motionConnectorCAbi/src/MotionConnector.cpp:352-385 | The check by byte ranges computes that same length |
| `Utf8.IsUtf8ByRanges` | libs/motionConnectorCAbi/src/MotionConnector.cpp:387-398 | The loop by byte ranges decides the same validity |
| `Utf8.ReplaceInvalidUtf8` | libs/motionConnectorCAbi/src/MotionConnector.cpp:402-418 | The loop computes the repair |
| `MocopiSkeleton.PathsCoverTheChain` | libs/motionConnectorMocopi/src/SkeletonMap.cpp:155-209 | For any ordered parent table and any bound joints, the paths of a mapped joint's bound ancestors, end to end, are exactly its root-to-joint chain |
| `MocopiSkeleton.CollapseKeepsTheWorld` | libs/motionConnectorMocopi/src/SkeletonMap.cpp:155-209 | Giving each bound joint the composition along its path preserves the world transform at every bound joint, for anything that composes |
| `MocopiMapping.RestIsPreserved` | libs/motionConnectorMocopi/src/SkeletonMap.cpp:386-412 | The humanoid's rest transforms compose, down to every bound joint, to the device's rest transform there |
| `MocopiMapping.FrameIsPreserved` | libs/motionConnectorMocopi/src/SkeletonMap.cpp:506-551 | At every mapped joint whose chain arrived, the humanoid's rotations compose to the device's world rotation, and every bone on the way was formed |
| `MocopiMapping.FormedOrMissing` | libs/motionConnectorMocopi/src/SkeletonMap.cpp:506-538 | Every bone the rig carries and the session declared is formed or counted missing, once |
| `MocopiMapping.EveryRecordHasAFate` | libs/motionConnectorMocopi/src/SkeletonMap.cpp:433-472 | Every record of a frame is read, unused or refused |
| `MocopiMapping.FirstUsableRecordIsRead` | libs/motionConnectorMocopi/src/SkeletonMap.cpp:446-471 | Of several records of one joint the first that names an orientation is the one read |
| `MocopiRecords.MappingIsByRecord` | libs/motionConnectorMocopi/src/SkeletonMap.cpp:418-556 | A mapping told record by record: the hips' offset is that of the root's record that was read, and the three counts are the numbers of the records unused, of the joints that strayed from their rest, and of the bones with a silent joint on their path |
| `MocopiRecords.FatesAreCounted` | libs/motionConnectorMocopi/src/SkeletonMap.cpp:433-472 | A record goes unused if and only if its joint is not of the rig or not declared, or an earlier record of it names an orientation; it is refused if and only if it is not unused and names none; each is counted once |
| `MocopiRecords.ReadableIff` | libs/motionConnectorMocopi/src/SkeletonMap.cpp:298-384 | A skeleton is taken if and only if it is the measured joints, each in its place under its parent and with an orientation, and behind them only joints of other numbers |
| `MocopiMapping.MeasuredIsARig` | libs/motionConnectorMocopi/src/SkeletonMap.cpp:26-56 | The measured joint table meets every hypothesis, for any numbering of the humanoid's bones |
| `MocopiMapping.MeasuredIsHuman` | libs/motionConnectorMocopi/src/SkeletonMap.cpp:26-56 | Collapsed, the measured rig hangs together as a body does: each of the twenty-two bones starts just below the joint of its parent bone |
| `MocopiMapping.MakeSkeletonMap` | libs/motionConnectorMocopi/src/SkeletonMap.cpp:298-416 | A map is made if and only if every joint of the rig stands where it was measured and none beyond claims an id inside; it holds each path's rest composition; a refusal blames the first joint that disagrees |
| `MocopiMapping.RestPose` | libs/motionConnectorMocopi/src/SkeletonMap.cpp:390-412 | The loop that composes rest transforms by bone |
| `MocopiMapping.ReadRecords` | libs/motionConnectorMocopi/src/SkeletonMap.cpp:433-472 | The record loop: what is read by joint, and how many records went unused or were refused |
| `MocopiMapping.ComposePath` | libs/motionConnectorMocopi/src/SkeletonMap.cpp:514-534 | A path composes root first, and only when every joint on it arrived |
| `MocopiMapping.MapMotionFrame` | libs/motionConnectorMocopi/src/SkeletonMap.cpp:418-556 | The whole mapping: bones in bone order with their composed rotations, hips offset, and the three counts |
| `MocopiMapping.Emit` | libs/motionConnectorMocopi/src/SkeletonMap.cpp:540-551 | Samples come in bone order, one for each present bone |
| `MocopiSkeleton.PathFromNearestBoundAncestor` | libs/motionConnectorMocopi/src/SkeletonMap.cpp:168-195 | The walk up and the in-place reversal give the path, root first |
| `MocopiSkeleton.TurnOver` | libs/motionConnectorMocopi/src/SkeletonMap.cpp:188-193 | The in-place reversal |
| `MocopiSkeleton.AllPaths` | libs/motionConnectorMocopi/src/SkeletonMap.cpp:200-209 | Every joint's path |
| `Kinematics.ProductOfPieces` | libs/motionConnectorMocopi/src/SkeletonMap.cpp:390-412 | Composing the products of consecutive pieces is composing the whole |
| `Kinematics.MotionsCompose` | libs/motionConnectorMocopi/src/SkeletonMap.cpp:397-407 | Rigid motions, composed as the code composes rotation and offset, are associative with the identity as unit |
| `TrackerAssignment.SpecIsReadBack` | libs/motionConnectorTracking/src/TrackerAssignment.cpp:148-215 | Whatever the layout and the comments, the text of a valid statement is read back as it |
| `TrackerAssignment.PlacedIff` | libs/motionConnectorTracking/src/TrackerAssignment.cpp:239-342 | An assignment is placed if and only if statement and observation are well formed, a stated tracker is there, and the policy is met |
| `TrackerAssignment.PlacedApplies` | libs/motionConnectorTracking/src/TrackerAssignment.cpp:344-404 | A placed assignment passes validation on its own observation and on no other |
| `TrackerAssignment.StatedRegionsSplit` | libs/motionConnectorTracking/src/TrackerAssignment.cpp:256-274 | Stated regions split exactly into bound and absent |
| `TrackerAssignment.StatedIsBound` | libs/motionConnectorTracking/src/TrackerAssignment.cpp:256-274 | A statement whose tracker was observed binds its region to that tracker |
| `TrackerAssignment.UnplacedOf` | libs/motionConnectorTracking/src/TrackerAssignment.cpp:276-287 | The observed indices nothing binds: all of them, in order, and no other |
| `TrackerAssignment.UnplacedIffUnstated` | libs/motionConnectorTracking/src/TrackerAssignment.cpp:276-287 | Nothing is unplaced if and only if every observed tracker is stated |
| `TrackerAssignment.BoundApplies` | libs/motionConnectorTracking/src/TrackerAssignment.cpp:256-274 | No binding repeats a region or an observed tracker |
| `TrackerAssignment.Parsed` | libs/motionConnectorTracking/src/TrackerAssignment.cpp:148-215 | Everything parsed is a valid statement |
| `TrackerAssignment.NameIsReadBack` | libs/motionConnectorTracking/src/TrackerRegion.cpp:25-50 | A region's name is read back as that region |
| `TrackerAssignment.RegionOfName` | libs/motionConnectorTracking/src/TrackerRegion.cpp:25-50 | The vocabulary, name by name: what each of the eleven names reads as, and that no other reads |
| `TrackerAssignment.ParseRegion` | libs/motionConnectorTracking/src/TrackerRegion.cpp:36-50 | The name lookup |
| `TrackerAssignment.IsWritableIdentity` | libs/motionConnectorTracking/src/TrackerAssignment.cpp:29-41 | Which tracker names a statement can be written with |
| `TrackerAssignment.ValidateTrackerAssignmentSpec` | libs/motionConnectorTracking/src/TrackerAssignment.cpp:95-146 | The validation loops decide exactly: a statement at least, names writable, regions and policy known, no tracker or region twice |
| `TrackerAssignment.ParseTrackerAssignmentSpec` | libs/motionConnectorTracking/src/TrackerAssignment.cpp:148-215 | The index loop over separators, comments and tokens computes the parse |
| `TrackerAssignment.AssignTrackers` | libs/motionConnectorTracking/src/TrackerAssignment.cpp:239-342 | The loops compute the assignment and its first refusal in order |
| `TrackerAssignment.BindStatements` | libs/motionConnectorTracking/src/TrackerAssignment.cpp:256-274 | The loop binds each statement to the first observed tracker of its name, or lists its region absent |
| `TrackerAssignment.FindUnplaced` | libs/motionConnectorTracking/src/TrackerAssignment.cpp:276-287 | The loop gathers the observed indices nothing binds |
| `TrackerAssignment.ValidateTrackerAssignmentObservation` | libs/motionConnectorTracking/src/TrackerAssignment.cpp:344-404 | The validation loops decide whether the assignment may be read against the observation |
| `TrackerSolve.SolveTrackerPose` | libs/motionConnectorTracking/src/TrackerSolve.cpp:151-362 | Each refusal if and only if its cause; the class lists filled before any value is judged; and on success every placed bone's composed world rotation, and the root, are where their trackers said |
| `TrackerFields.PoseIsByField` | libs/motionConnectorTracking/src/TrackerSolve.cpp:108-362 | A pose that reproduces an observation, by the humanoid's own fields: each of the seven regions that orient a bone turns its own one of the seven bones if and only if its tracker says where and none of them above hangs loose, and that bone then composes to the tracker's rotation; no other bone is turned; the root position is the hips tracker's where root motion is asked for, and the root orientation the hips tracker's rotation |
| `TrackerFields.ListsAreByField` | libs/motionConnectorTracking/src/TrackerSolve.cpp:213-235 | What a solve lists, place by place in the assignment: unsolved are the bound elbows and knees and no other, without rotation those of the rest whose tracker says none, withheld those whose bone hangs loose, unused the positions nothing consumes |
| `TrackerFields.SoundByField` | libs/motionConnectorTracking/src/TrackerSolve.cpp:237-274 | The values of a bound region are sound if and only if the position it consumes, the hips' with root motion asked for, is there, and the rotation it consumes, any but an elbow's or a knee's, names an orientation |
| `TrackerSolve.SolutionIsUnique` | libs/motionConnectorTracking/src/TrackerSolve.cpp:276-340 | At most one set of local rotations reproduces an observation: the solve is the inverse of forward kinematics |
| `TrackerSolve.PlacedSetIsClosed` | libs/motionConnectorTracking/src/TrackerSolve.cpp:181-227 | Every named bone above a placed one is itself placed |
| `TrackerSolve.BoundRegionsSplit` | libs/motionConnectorTracking/src/TrackerSolve.cpp:213-235 | The bound regions split exactly into placed, unsolved, without rotation and withheld |
| `TrackerSolve.NothingSolvedIff` | libs/motionConnectorTracking/src/TrackerSolve.cpp:342-362 | Nothing is solved if and only if no binding is placed and no root position is consumed |
| `TrackerSolve.BoneIsTurned` | libs/motionConnectorTracking/src/TrackerSolve.cpp:333-339 | The local rotation a bone is given composes back to the world rotation it was given for |
| `TrackerSolve.BoneJoins` | libs/motionConnectorTracking/src/TrackerSolve.cpp:297-340 | One more turn of the loop turns its bone right and leaves every earlier one where it was |
| `TrackerSolve.PlacedOnce` | libs/motionConnectorTracking/src/TrackerSolve.cpp:276-292 | Sorted by joint, the bindings of a usable assignment come to different joints, parents first |
| `TrackerSolve.ParentFirstSorts` | libs/motionConnectorTracking/src/TrackerSolve.cpp:276-292 | The order is sorted by joint and holds the same bindings |
| `TrackerSolve.AncestorFellSilent` | libs/motionConnectorTracking/src/TrackerSolve.cpp:55-70 | The walk decides whether a named bone above could not be oriented |
| `TrackerSolve.ParentWorldRotation` | libs/motionConnectorTracking/src/TrackerSolve.cpp:82-105 | Gathering the chain and composing it root first gives the parent's world rotation |
| `TrackerSolve.NameBones` | libs/motionConnectorTracking/src/TrackerSolve.cpp:181-211 | Which bones the assignment names and which this frame orients |
| `TrackerSolve.Classify` | libs/motionConnectorTracking/src/TrackerSolve.cpp:213-235 | The loop that sorts bindings into the four classes and the unused positions |
| `TrackerSolve.CheckValues` | libs/motionConnectorTracking/src/TrackerSolve.cpp:237-274 | Sound exactly when every consumed value is usable |
| `TrackerSolve.PlaceBones` | libs/motionConnectorTracking/src/TrackerSolve.cpp:276-340 | The placing loop yields a pose that reproduces the observation |
| `TrackerSolve.PlaceBone` | libs/motionConnectorTracking/src/TrackerSolve.cpp:297-340 | One turn of it |
| `OscCodec.ReadIffSpelled` | libs/motionConnectorOsc/src/OscPacket.cpp:75-442 | The language of the decoder outright: a datagram is read as a packet if and only if it spells some tree of bundles nested at most eight deep whose messages those are. What spells what is written on the bytes of OSC 1.0: i f c r m in four, h t d in eight, s S as text up to a zero byte, b as sized bytes, T F N I and the brackets in none, "#bundle" before a time tag, padding of any value to the next word |
| `OscCodec.PacketIsReadBack` | libs/motionConnectorOsc/src/OscPacket.cpp:403-442 | Every tree of bundles within the nesting bound, encoded on the tag bytes of OSC 1.0, decodes to its messages depth first with the outer time tag |
| `OscCodec.ReadIsSpelled` | libs/motionConnectorOsc/src/OscPacket.cpp:75-442 | A datagram is accepted only where it spells a packet, and as that packet |
| `OscCodec.SpelledIsRead` | libs/motionConnectorOsc/src/OscPacket.cpp:75-442 | A datagram that spells a packet within the nesting bound decodes to it |
| `OscRefusals.ArgumentRefusedFor` | libs/motionConnectorOsc/src/OscPacket.cpp:210-302 | An argument is refused at its own offset, for each reason if and only if that is what is wrong with the bytes there; in particular as an unknown tag exactly when the tag is none of the seventeen |
| `OscRefusals.RefusalIsExplained` | libs/motionConnectorOsc/src/OscPacket.cpp:75-442 | Every refusal of a datagram names the first place where nothing can be read: all before it is spelled, and its reason is what is wrong with the bytes there |
| `OscCodec.DecodedIsWellFormed` | libs/motionConnectorOsc/src/OscPacket.cpp:75-319 | Every decoded message begins with a slash, has one argument for each tag, and each argument holds what its tag says and nothing else |
| `OscCodec.ReencodedIsReadBack` | libs/motionConnectorOsc/src/OscPacket.cpp:403-442 | Decoding, encoding a message and decoding again changes nothing |
| `OscRefusals.RefusalIsInside` | libs/motionConnectorOsc/src/OscPacket.cpp:75-345 | Every refusal names an offset within the datagram, a multiple of four from its start, and the truncated-size branch is dead |
| `OscRefusals.PaddingNeverOverruns` | libs/motionConnectorOsc/src/OscPacket.cpp:323-345 | At an aligned offset a terminated string is never refused for its padding, and the next offset is aligned |
| `OscRefusals.ArgumentsKeepAlignment` | libs/motionConnectorOsc/src/OscPacket.cpp:182-319 | Every offset a message is read at stays aligned |
| `OscCodec.ElementAligns` | libs/motionConnectorOsc/src/OscPacket.cpp:56-62 | Every element fills whole words of four bytes, at least two |
| `OscCodec.ElementIsRead` | libs/motionConnectorOsc/src/OscPacket.cpp:75-179 | An element spelled in the bytes is read, at every depth and base offset |
| `OscCodec.MessageIsRead` | libs/motionConnectorOsc/src/OscPacket.cpp:182-319 | A message spelled in the bytes is read |
| `OscPacket.DecodeOscPacket` | libs/motionConnectorOsc/src/OscPacket.cpp:403-442 | One datagram: the specified packet, or the specified refusal with nothing given |
| `OscPacket.Decoder.Element` | libs/motionConnectorOsc/src/OscPacket.cpp:75-110 | The dispatch on depth, size, bundle and address |
| `OscPacket.Decoder.Bundle` | libs/motionConnectorOsc/src/OscPacket.cpp:124-179 | The element loop, messages appended in wire order |
| `OscPacket.Decoder.NextElement` | libs/motionConnectorOsc/src/OscPacket.cpp:141-177 | One size field and what it holds |
| `OscPacket.Decoder.ReadMessage` | libs/motionConnectorOsc/src/OscPacket.cpp:181-319 | Address, tags, arguments, and nothing left over |
| `OscPacket.Decoder.ReadArgument` | libs/motionConnectorOsc/src/OscPacket.cpp:210-302 | One argument of each tag kind |
| `OscPacket.Decoder.ReadBlob` | libs/motionConnectorOsc/src/OscPacket.cpp:366-395 | A blob's signed size, its bytes and its padding |
| `OscPacket.Decoder.Fixed` | libs/motionConnectorOsc/src/OscPacket.cpp:347-364 | A fixed-width argument, or the refusal at its offset |
| `OscPacket.ReadString` | libs/motionConnectorOsc/src/OscPacket.cpp:323-345 | A string up to its zero, and the offset past its padding |
| `OscPacket.PaddedSize` | libs/motionConnectorOsc/src/OscPacket.cpp:56-62 | The next multiple of four strictly past the length |
| `VmcArrivals.EventsTell` | libs/motionConnectorVmc/src/FrameAssembler.cpp:65-391 | Every run told from its events alone. Each message has a fate, of which it can have one only: it is left out if and only if its own datagram has already said the same in the current frame; it ends the frame if and only if an earlier datagram has, or it is a second clock, and a flush ends it if anything has joined. The frames closed and open are those the fates make; each is refused as empty when it holds clocks alone, refused out of order, or emitted with exactly what its entries say; and every count is a count of fates |
| `VmcArrivals.FatesAreUnique` | libs/motionConnectorVmc/src/FrameAssembler.cpp:189-385 | No events have two lists of fates |
| `VmcArrivals.CloseEndsAs` | libs/motionConnectorVmc/src/FrameAssembler.cpp:65-187 | How a frame ends, from its entries and the timestamp last emitted: by the sender's clock where it has one and the receiver's otherwise |
| `VmcRuns.AcceptedIsPartitioned` | libs/motionConnectorVmc/src/FrameAssembler.cpp:65-86 | The entries of the closed frames and then of the open one are the accepted entries in order, no frame fills a slot twice, and the counts of accepted entries, of ends, of sessions begun and of frames that lacked a bone are their totals |
| `VmcRuns.NothingIsOverwritten` | libs/motionConnectorVmc/src/FrameAssembler.cpp:189-385 | A frame's pose holds as many bones and expressions as it accepted |
| `VmcRuns.EmittedClocksAdvance` | libs/motionConnectorVmc/src/FrameAssembler.cpp:88-123 | Over whole runs emitted timestamps strictly increase, save across a frame that begins a session, which falls back beyond the bound |
| `VmcRuns.EmittedFramesAreMeasured` | libs/motionConnectorVmc/src/FrameAssembler.cpp:133-170 | Stale is within missing, missing within the bones seen this session, each measured exactly against the session's own frames |
| `VmcRuns.StaleOnceBetweenUpdates` | libs/motionConnectorVmc/src/FrameAssembler.cpp:133-170 | A bone newly reported stale twice was carried, or the session began anew, in between |
| `VmcRuns.RunKeeps` | libs/motionConnectorVmc/src/FrameAssembler.cpp:65-391 | What every run of pushes and flushes keeps: partition, counters, clocks and session accounts |
| `VmcAssembler.VmcFrameAssembler.Push` | libs/motionConnectorVmc/src/FrameAssembler.cpp:189-385 | One datagram: fields and emitted frames are the specification's, message by message |
| `VmcAssembler.VmcFrameAssembler.TakeMessage` | libs/motionConnectorVmc/src/FrameAssembler.cpp:196-382 | One message: its slot free, repeated by its own packet, or the sign of a new frame |
| `VmcAssembler.VmcFrameAssembler.AcceptItem` | libs/motionConnectorVmc/src/FrameAssembler.cpp:200-369 | One accepted value finds its slot |
| `VmcAssembler.VmcFrameAssembler.CountRepeat` | libs/motionConnectorVmc/src/FrameAssembler.cpp:242-252 | A slot repeated within one datagram keeps its first value and is counted |
| `VmcAssembler.VmcFrameAssembler.FillSlot` | libs/motionConnectorVmc/src/FrameAssembler.cpp:255-267 | The value joins the open frame, which opens if none is, and is counted |
| `VmcAssembler.VmcFrameAssembler.CloseFrame` | libs/motionConnectorVmc/src/FrameAssembler.cpp:65-187 | The open frame ends: emitted, or refused as empty or out of order |
| `VmcAssembler.VmcFrameAssembler.EmitClosing` | libs/motionConnectorVmc/src/FrameAssembler.cpp:125-187 | The frame leaves measured, and everything remembered is what the specification says |
| `VmcAssembler.VmcFrameAssembler.CompareClock` | libs/motionConnectorVmc/src/FrameAssembler.cpp:88-107 | Whether the frame falls back on the last one accepted, and whether so far that the sender began again |
| `VmcAssembler.VmcFrameAssembler.Measure` | libs/motionConnectorVmc/src/FrameAssembler.cpp:125-159 | The frame measured against the rig observed so far |
| `VmcAssembler.VmcFrameAssembler.Record` | libs/motionConnectorVmc/src/FrameAssembler.cpp:161-186 | What an emission leaves remembered |
| `VmcAssembler.VmcFrameAssembler.FindStale` | libs/motionConnectorVmc/src/FrameAssembler.cpp:133-159 | Which bones are stale, and which newly so |
| `VmcAssembler.VmcFrameAssembler.Flush` | libs/motionConnectorVmc/src/FrameAssembler.cpp:387-391 | The open frame is closed |
| `VmcAssembler.VmcFrameAssembler.Reset` | libs/motionConnectorVmc/src/FrameAssembler.cpp:27-38 | The session's memory and the open frame go, the counts stay |
| `VrchatArrivals.EventsTell` | libs/motionConnectorVrchatOsc/src/FrameAssembler.cpp:74-452 | Every run told from its events alone. Each value has a fate, of which it can have one only: it joins the current frame unless it has no channel, is refused, or its own datagram has filled that channel there; and the frame ends, for its cause, if and only if another datagram has filled it, a datagram names another peer than the last named, one comes beyond the window of the frame's first value, or a flush stands. The frames are those the fates make, each with its start, its restarts and its repeats, and every count is a count of fates |
| `VrchatArrivals.FatesAreUnique` | libs/motionConnectorVrchatOsc/src/FrameAssembler.cpp:281-445 | No events have two lists of fates |
| `VrchatArrivals.SamplesAreInOrder` | libs/motionConnectorVrchatOsc/src/FrameAssembler.cpp:87-111 | A frame's samples stand in the order their trackers were first heard of, one for every tracker heard, each with the time of that |
| `VrchatFrames.RunKeeps` | libs/motionConnectorVrchatOsc/src/FrameAssembler.cpp:74-151 | Over every run: accepted values are the closed frames' and then the open one's, in order; each tracker's channel fills a frame once; no frame mixes two named peers; all contributions lie in the window of the first; a frame begins a session exactly when it is the first opened since a restart; and emitted frames are the sum of the four close counters |
| `VrchatFrames.SamplesHoldTheEntries` | libs/motionConnectorVrchatOsc/src/FrameAssembler.cpp:87-111 | One sample a tracker, each with a channel; the sample of each accepted entry's tracker holds that entry's value in its channel, and a channel nothing was accepted for is empty |
| `VrchatFrames.ArrivalKeeps` | libs/motionConnectorVrchatOsc/src/FrameAssembler.cpp:281-333 | An arrival leaves open only a frame whose window and peer admit the datagram |
| `VrchatFrames.TakeKeeps` | libs/motionConnectorVrchatOsc/src/FrameAssembler.cpp:335-442 | Each message, accepted, repeated or refused, keeps all of that |
| `VrchatSessions.MissingIsMeasured` | libs/motionConnectorVrchatOsc/src/FrameAssembler.cpp:174-195 | Over every run, a tracker is missing from a frame if and only if an earlier frame of its session carried it and this one does not |
| `VrchatSessions.StaleIsMeasured` | libs/motionConnectorVrchatOsc/src/FrameAssembler.cpp:197-207 | It is stale if and only if it is missing and the last frame of its session to carry it lies the horizon or more back |
| `VrchatSessions.StaleOnceBetweenUpdates` | libs/motionConnectorVrchatOsc/src/FrameAssembler.cpp:179-212 | Between two frames that first report a tracker stale it was carried, or a session began |
| `VrchatSessions.EveryStaleIsReported` | libs/motionConnectorVrchatOsc/src/FrameAssembler.cpp:207-212 | No staleness goes unreported: a stale tracker was first reported by this frame or by one of its session since it was last carried |
| `VrchatSessions.DiscontinuityIsMeasured` | libs/motionConnectorVrchatOsc/src/FrameAssembler.cpp:215-259 | A frame follows a discontinuity if and only if the check is on, at least two of its trackers were placed before in its session, and every one that was stands further than the bound from where it was placed last |
| `VrchatSessions.HeadAndPartsAreMeasured` | libs/motionConnectorVrchatOsc/src/FrameAssembler.cpp:155-172 | The head reference names the one sample called head, and there is one exactly when the frame carries it; partial samples are what the accepted values leave of two for each sample |
| `VrchatSessions.MemoryHolds` | libs/motionConnectorVrchatOsc/src/FrameAssembler.cpp:174-259 | What a session remembers of each tracker is what the last frames that carried it and placed it say |
| `VrchatSessions.CountsAre` | libs/motionConnectorVrchatOsc/src/FrameAssembler.cpp:155-270 | The four counts of a run are the numbers of its frames that lacked a tracker, held a partial sample or followed a discontinuity, and of the trackers first reported stale |
| `VrchatAssembler.TrackerFrameAssembler.Push` | libs/motionConnectorVrchatOsc/src/FrameAssembler.cpp:281-445 | One datagram: the fields are the specification's, and the frames given are those it closed, in order, each with its samples and its report |
| `VrchatAssembler.TrackerFrameAssembler.ArriveDatagram` | libs/motionConnectorVrchatOsc/src/FrameAssembler.cpp:285-333 | Silence, a new peer and a gap, seen to in that order |
| `VrchatAssembler.TrackerFrameAssembler.AttributeTo` | libs/motionConnectorVrchatOsc/src/FrameAssembler.cpp:299-323 | A new named peer restarts the session |
| `VrchatAssembler.TrackerFrameAssembler.RestartSession` | libs/motionConnectorVrchatOsc/src/FrameAssembler.cpp:304-318 | A restart ends the open frame, is counted, forgets what the session knew and leaves a session pending |
| `VrchatAssembler.TrackerFrameAssembler.TakeMessage` | libs/motionConnectorVrchatOsc/src/FrameAssembler.cpp:335-442 | One message fills its tracker's channel, repeats it, or closes the frame and gives it with its samples and report |
| `VrchatAssembler.TrackerFrameAssembler.FillChannel` | libs/motionConnectorVrchatOsc/src/FrameAssembler.cpp:421-441 | The value joins the open frame, which opens with the pending session flag if none is |
| `VrchatAssembler.TrackerFrameAssembler.CloseFrame` | libs/motionConnectorVrchatOsc/src/FrameAssembler.cpp:113-279 | The open frame is given with its samples and its report and counted under its cause; what is remembered and counted afterwards is what all closed frames of the session leave |
| `VrchatAssembler.TrackerFrameAssembler.MeasureFrame` | libs/motionConnectorVrchatOsc/src/FrameAssembler.cpp:155-270 | A closing frame is measured against the session's memory, joins it and is counted |
| `VrchatAssembler.TrackerFrameAssembler.NoteSamples` | libs/motionConnectorVrchatOsc/src/FrameAssembler.cpp:155-182 | Its trackers are observed, seen and no longer stale; its head and its partial samples are found |
| `VrchatAssembler.TrackerFrameAssembler.FindAbsent` | libs/motionConnectorVrchatOsc/src/FrameAssembler.cpp:186-213 | The observed trackers it lacks, those of them silent up to the horizon, and those so for the first time |
| `VrchatAssembler.TrackerFrameAssembler.FindDiscontinuity` | libs/motionConnectorVrchatOsc/src/FrameAssembler.cpp:218-251 | Whether at least two of its samples can be compared and all that can have jumped |
| `VrchatAssembler.TrackerFrameAssembler.RecordPositions` | libs/motionConnectorVrchatOsc/src/FrameAssembler.cpp:253-259 | Every position becomes its tracker's last |
| `VrchatAssembler.TrackerFrameAssembler.FindHolder` | libs/motionConnectorVrchatOsc/src/FrameAssembler.cpp:356-384 | The datagram that already filled this channel of this tracker |
| `VrchatAssembler.TrackerFrameAssembler.Flush` | libs/motionConnectorVrchatOsc/src/FrameAssembler.cpp:447-452 | The open frame is closed |
| `MocopiAccount.PacketsTell` | libs/motionConnectorMocopi/src/FrameAssembler.cpp:81-298 | Every run told from its packets alone. A frame is late if and only if it repeats the last emitted number of its session, or its clock does not advance on that one and neither its counter fell nor its clock fell beyond the bound; it reveals a restart if and only if one did; any other is emitted through the rig taken last, if there is one and it yields anything. An emission's drift is its offset less that of the first of its session, and its lost frames the numbers skipped; log and counts are what the fates make them |
| `MocopiAccount.FatesAreUnique` | libs/motionConnectorMocopi/src/FrameAssembler.cpp:120-298 | No packets have two lists of fates |
| `MocopiFrames.RunKeeps` | libs/motionConnectorMocopi/src/FrameAssembler.cpp:120-298 | Over every run: an emitted frame is read through the rig accepted last since the last restart, begins a session exactly when one is pending, and advances on the emission before it in its session |
| `MocopiFrames.ClocksAdvance` | libs/motionConnectorMocopi/src/FrameAssembler.cpp:140-178 | Emitted timestamps strictly increase from one emission to the next unless the later begins a session |
| `MocopiFrames.RestartIsNotEmitted` | libs/motionConnectorMocopi/src/FrameAssembler.cpp:140-192 | Over every run, each restart is followed at once by a refusal for want of a rig: the frame that reveals it is never emitted |
| `MocopiFrames.LostIsSkipped` | libs/motionConnectorMocopi/src/FrameAssembler.cpp:239-243 | Over every run, the frames counted lost are at most those the sender's 32-bit counter skipped, and they are those if and only if no emission passed the counter's top inside its gap |
| `MocopiFrames.GapGoesUncounted` | libs/motionConnectorMocopi/src/FrameAssembler.cpp:239-243 | A run that fails it: frames 5 and then 3 on an advancing clock skip nearly all of the counter and count none lost |
| `MocopiFrames.MocopiFrameAssembler.PushFrame` | libs/motionConnectorMocopi/src/FrameAssembler.cpp:120-298 | One frame packet: repeated, restarted, refused or emitted as specified |
| `MocopiFrames.MocopiFrameAssembler.PushSkeleton` | libs/motionConnectorMocopi/src/FrameAssembler.cpp:81-118 | A refused rig leaves the last one in force |
| `RelayAccount.EventsTell` | libs/motionConnectorWebSocket/src/Connector.cpp:244-383 | Every run told from its events alone. A frame is delivered if and only if it is of the profile asked for, where one is, and each of its poses is past every delivered one of its actor since the last restart; a restart is reported if and only if a number does not rise on the last of its peer, or a new peer speaks after something was delivered; everything that happens, in order, is what these fates make of the messages |
| `RelayAccount.FatesAreUnique` | libs/motionConnectorWebSocket/src/Connector.cpp:264-383 | No events have two lists of fates |
| `RelayFrames.ActorsAdvance` | libs/motionConnectorWebSocket/src/Connector.cpp:340-369 | Between two restarts each actor's delivered pose timestamps strictly increase |
| `RelayFrames.NumbersAreAccounted` | libs/motionConnectorWebSocket/src/Connector.cpp:297-328 | Decoded frames and summed gaps make up last minus first plus one, with no 64-bit wrap |
| `RelayFrames.DropsLeaveNoTrace` | libs/motionConnectorWebSocket/src/Connector.cpp:297-362 | A dropped frame leaves nothing behind but its number: two runs that differ in the rest of what a dropped frame said deliver and report the same ever after |
| `RelayFrames.RunKeeps` | libs/motionConnectorWebSocket/src/Connector.cpp:256-383 | What every run keeps, consecutive delivered numbers and an empty history until something is delivered among it |
| `RelayFrames.WebSocketConnector.AcceptMessage` | libs/motionConnectorWebSocket/src/Connector.cpp:264-383 | One message: undecodable, dropped, regressed or delivered, the fields as specified |
| `RelayFrames.WebSocketConnector.Remember` | libs/motionConnectorWebSocket/src/Connector.cpp:363-369 | Every pose delivered becomes its actor's last |
| `RelayFrames.WebSocketConnector.Regresses` | libs/motionConnectorWebSocket/src/Connector.cpp:340-358 | The loop decides whether some actor's pose does not advance on its own last one |
| `RelayFrames.WebSocketConnector.TakeNumber` | libs/motionConnectorWebSocket/src/Connector.cpp:297-328 | The sender's numbering: a restart, or a gap |
| `RelayFrames.WebSocketConnector.BeginConnection` | libs/motionConnectorWebSocket/src/Connector.cpp:256-262 | A new sender forgets the number, not the history |
| `RelayFrames.WebSocketConnector.PushMessage` | libs/motionConnectorWebSocket/src/Connector.cpp:244-254 | A message from another peer begins a connection first |
| `PacketChunks.ContainerIsExact` | libs/motionConnectorMocopi/src/PacketChunk.cpp:78-142 | Decoding yields given chunks if and only if the bytes are their encoding and their offsets the prefix sums |
| `PacketChunks.DecodePacketChunks` | libs/motionConnectorMocopi/src/PacketChunk.cpp:78-142 | The offset loop computes that decoding |
| `PacketChunks.ReadLittleEndian` | libs/motionConnectorMocopi/src/PacketChunk.cpp:17-26 | The byte loop computes the little-endian number |
| `PacketChunks.ReadIsLittleEndian` | libs/motionConnectorMocopi/src/PacketChunk.cpp:17-26 | Bytes are the one little-endian encoding, of their width, of the number they hold |
| `MotionPackets.PacketIsReadBack` | libs/motionConnectorMocopi/src/MotionPacket.cpp:572-638 | A written packet decodes to its sender, port and body: a frame with its usable bones and the count of the others, unless its clock is not one; a skeleton whole, unless one of its joints names no orientation |
| `MotionPackets.FramePacketIsReadBack` | libs/motionConnectorMocopi/src/MotionPacket.cpp:356-474 | A written frame comes back with its usable bones, and bones plus refusals make up its records |
| `MotionPackets.SkeletonPacketIsReadBack` | libs/motionConnectorMocopi/src/MotionPacket.cpp:479-553 | A written skeleton comes back whole if and only if every joint names an orientation |
| `MotionPackets.RecordsAreAccounted` | libs/motionConnectorMocopi/src/MotionPacket.cpp:432-473 | Bones plus refused bones are the bone records, and every bone kept is usable |
| `MotionPackets.ReadRecords` | libs/motionConnectorMocopi/src/MotionPacket.cpp:311-347 | The record loop, stopped by one record that cannot be read |
| `MotionPackets.RequireOne` | libs/motionConnectorMocopi/src/MotionPacket.cpp:71-106 | The one chunk of a tag; none and several are both refused |
| `MotionVariants.VariantsDecodeAlike` | libs/motionConnectorMocopi/src/MotionPacket.cpp:572-638 | Rearranging a datagram changes nothing that is decoded: at any depth, chunks of unknown tags may come and go and chunks of different tags change places |
| `MotionVariants.SameReadingIsAlike` | libs/motionConnectorMocopi/src/MotionPacket.cpp:572-638 | Two datagrams read as one packet, no bone refused, are rearrangements of one another |
| `MotionVariants.OnlyRearrangementsDecode` | libs/motionConnectorMocopi/src/MotionPacket.cpp:572-638 | A datagram decodes to a packet the reader takes whole if and only if it is a rearrangement of that packet as written |
| `MotionVariants.UnknownIsIgnored` | libs/motionConnectorMocopi/src/MotionPacket.cpp:71-106 | A chunk of an unknown tag, anywhere in a datagram, is as if it were not there |
| `MotionVariants.OrderIsFree` | libs/motionConnectorMocopi/src/MotionPacket.cpp:71-106 | Two neighbouring chunks of different tags may stand either way |
| `MotionVariants.LayoutIsFree` | libs/motionConnectorMocopi/src/PacketChunk.cpp:78-142 | Two layouts of a container with the same payloads under every tag looked for are alike |
| `MotionVariants.OnlyBonesCount` | libs/motionConnectorMocopi/src/MotionPacket.cpp:311-347 | Records of other tags among the bones say nothing |
| `CaptureRoundTrip.WrittenIsRead` | libs/motionConnectorTransport/src/PacketCapture.cpp:182-529 | Reading what the writer wrote returns the same capture with its times to the nearest microsecond: fields of one word, peers that change, go and come back, times that do not go backwards, payloads of any bytes |
| `CaptureRoundTrip.CaptureIsReadBack` | libs/motionConnectorTransport/src/PacketCapture.cpp:182-529 | It returns the very capture if and only if every receive time is a whole number of microseconds |
| `CaptureReading.ReadIsWritable` | libs/motionConnectorTransport/src/PacketCapture.cpp:182-435 | Everything the reader accepts is a capture the writer can hold |
| `CaptureReading.RewrittenIsReadBack` | libs/motionConnectorTransport/src/PacketCapture.cpp:182-529 | However it was laid out, writing down what was read and reading that gives the same capture if and only if every time read is a whole number of microseconds. A time is the exact decimal its text spells: the program rounds it to double precision first, so a time finer than a double can tell, 4503599627370497.0000001 say, survives there |
| `CaptureReading.RewrittenIsRounded` | libs/motionConnectorTransport/src/PacketCapture.cpp:182-529 | In any case it gives the capture that was read with its times rounded |
| `CaptureReading.RewritingSettles` | libs/motionConnectorTransport/src/PacketCapture.cpp:182-529 | Rewriting once is enough: rewriting again changes nothing |
| `CaptureReading.FineTimeIsLost` | libs/motionConnectorTransport/src/PacketCapture.cpp:290-298 | A capture that does not survive rewriting: one datagram at 0.0000001 s |
| `CaptureReading.SpellingsOfTimes` | libs/motionConnectorTransport/src/PacketCapture.cpp:290-298 | Times spelled 3, 0.5, 0.0000001 and 1e-7 are read as what they say |
| `CaptureRoundTrip.DatagramsAreRead` | libs/motionConnectorTransport/src/PacketCapture.cpp:477-526 | The run-length peer lines put every datagram back under its own peer |
| `CaptureRoundTrip.RowIsRead` | libs/motionConnectorTransport/src/PacketCapture.cpp:100-165 | A row is read back past its gutter, even where payload bytes show as bars in it |
| `CaptureRoundTrip.RowsAreRead` | libs/motionConnectorTransport/src/PacketCapture.cpp:100-165 | A payload split into rows is put back together |
| `CaptureRoundTrip.TimeIsRead` | libs/motionConnectorTransport/src/PacketCapture.cpp:453-502 | A time written with six decimals is read back to the nearest microsecond, the even one of two as near |
| `CaptureRoundTrip.RoundingKeepsOrder` | libs/motionConnectorTransport/src/PacketCapture.cpp:305-308 | Rounding keeps times from going backwards, so that what is written can be read |
| `CaptureRoundTrip.NearestIsNearest` | libs/motionConnectorTransport/src/PacketCapture.cpp:453-502 | A time is written as the nearest microsecond, the even one of two as near |
| `CaptureReading.LineKeeps` | libs/motionConnectorTransport/src/PacketCapture.cpp:209-414 | Each line keeps clock, declared length, peer and header well formed |
| `PacketCapture.ReadPacketCapture` | libs/motionConnectorTransport/src/PacketCapture.cpp:182-435 | The line loop computes the reading |
| `PacketCapture.WritePacketCapture` | libs/motionConnectorTransport/src/PacketCapture.cpp:449-529 | The writer loop computes the text |
| `PacketCapture.PacketCaptureGutter` | libs/motionConnectorTransport/src/PacketCapture.cpp:169-180 | The gutter of a row |
| `CaptureRoundTrip.RowIsLaidOut` | libs/motionConnectorTransport/src/PacketCapture.cpp:506-525 | A row has each byte's two digits three columns apart and its gutter between bars from column 51 |
| `CaptureRoundTrip.RowsAreOfSixteen` | libs/motionConnectorTransport/src/PacketCapture.cpp:503-525 | A payload stands in rows of sixteen bytes, the last one shorter |
| `Text.DecimalIsRead` | libs/motionConnectorTransport/src/PacketCapture.cpp:477-526 | A decimal is read back as its number |
| `Text.DecimalIsUnique` | libs/motionConnectorWire/src/FrameWire.cpp:310-336 | Digits without a leading zero are the decimal of the number they write |
| `Text.JoinedIsRead` | libs/motionConnectorTransport/src/PacketCapture.cpp:207-215 | Lines joined are split again |
| `Text.SpacedIsRead` | libs/motionConnectorTransport/src/PacketCapture.cpp:60-69 | Words spaced are split again |
| `WireLanguage.FrameIff` | libs/motionConnectorWire/src/FrameWire.cpp:173-765 | The wire language outright, on its keys and words as text: a parsed value is read as a frame if and only if it says that frame. So a message of another format text, with a key that no table has at any depth, or without one that is needed is refused |
| `WireRoundTrip.WrittenIsRead` | libs/motionConnectorWire/src/FrameWire.cpp:827-843 | The reader accepts everything the writer writes and returns the frame's normal form: unset fields as a frame starts with them, absent joints at rest, channels in name order |
| `WireReading.ReadIsWritable` | libs/motionConnectorWire/src/FrameWire.cpp:173-215 | The writer accepts everything the reader accepts of a parsed message, and it is already in normal form |
| `WireReading.ReencodedIsTheSame` | libs/motionConnectorWire/src/FrameWire.cpp:173-215 | A decoded frame encoded and decoded again is the same frame |
| `WireReading.WrittenIsParsed` | libs/motionConnectorWire/src/FrameWire.cpp:27-29 | What is written has text for strings, no key twice in an object, and nests no deeper than six |
| `WireReading.WrittenAlikeIffNormalAlike` | libs/motionConnectorWire/src/FrameWire.cpp:827-843 | Two frames are written as the same message if and only if their normal forms are the same frame |
| `WireRoundTrip.PoseIsRead` | libs/motionConnectorWire/src/FrameWire.cpp:1054-1087 | A pose is read back with its root, joints, confidence, contacts, target, channels and metadata |
| `WireRoundTrip.LimbsAreRead` | libs/motionConnectorWire/src/FrameWire.cpp:1122-1147 | Joints written by number are read back by name |
| `WireRoundTrip.ConfidenceIsRead` | libs/motionConnectorWire/src/FrameWire.cpp:1149-1174 | Confidence written in name order is read back for exactly the joints carried |
| `WireRoundTrip.SortedChannelsAreRead` | libs/motionConnectorWire/src/FrameWire.cpp:1196-1238 | Channels in any order are read back in name order |
| `WireRoundTrip.TimingIsRead` | libs/motionConnectorWire/src/FrameWire.cpp:964-1004 | A timing is read back, optional fields left out and all |
| `WireRoundTrip.RootIsRead` | libs/motionConnectorWire/src/FrameWire.cpp:1089-1120 | A root is read back, unset parts as a frame starts with them |
| `WireRoundTrip.MetadataIsRead` | libs/motionConnectorWire/src/FrameWire.cpp:1240-1265 | Metadata is read back |
| `WireRoundTrip.TrackerIsRead` | libs/motionConnectorWire/src/FrameWire.cpp:1287-1320 | A tracker is read back, unset parts as a frame starts with them |
| `WireReading.ConfidenceReads` | libs/motionConnectorWire/src/FrameWire.cpp:621-663 | A confidence accepted covers exactly the joints carried, finite there and zero elsewhere |
| `WireReading.ChannelsRead` | libs/motionConnectorWire/src/FrameWire.cpp:686-704 | Channels read are sorted, each name once |
| `WireTree.CounterIsExact` | libs/motionConnectorWire/src/FrameWire.cpp:310-336 | A counter's text is accepted if and only if it is the one decimal of an unsigned 64-bit number |
| `WireTree.Counter` | libs/motionConnectorWire/src/FrameWire.cpp:310-336 | The digit loop, refused when the number grows past 64 bits |
| `WireTree.Keys` | libs/motionConnectorWire/src/FrameWire.cpp:234-254 | The key check: no key but the allowed, and each that is needed |
| `WireTree.BuiltFits` | libs/motionConnectorWire/src/FrameWire.cpp:827-843 | A written object has only its keys, and its reader finds every value where it was put |
| `WireTree.ListedAreDistinct` | libs/motionConnectorWire/src/FrameWire.cpp:452-489 | A list read has one item an element, under identifiers that all differ |
| `WireTree.DistinctAreListed` | libs/motionConnectorWire/src/FrameWire.cpp:452-489 | Elements that read to items of distinct identifiers read to all the items |
| `WireTree.Listed` | libs/motionConnectorWire/src/FrameWire.cpp:452-469 | The loop with its set of identifiers seen |
| `WireTree.SortedIsInOrder` | libs/motionConnectorWire/src/FrameWire.cpp:1196-1238 | Whatever their order, channels are sorted, and none is lost when names differ |
| `WireTree.SortedStays` | libs/motionConnectorWire/src/FrameWire.cpp:1196-1238 | Channels already in order stay as they are |
| `WireLanguage.OrderIsLexical` | libs/motionConnectorWire/src/FrameWire.cpp:1196-1238 | The order of names is that of text, character by character |
| `WireReader.Joints` | libs/motionConnectorWire/src/FrameWire.cpp:587-615 | The joint loop |
| `WireReader.Confidence` | libs/motionConnectorWire/src/FrameWire.cpp:621-663 | The confidence loop and the check that no carried joint is left out |
| `WireReader.Channels` | libs/motionConnectorWire/src/FrameWire.cpp:686-704 | The channel loop |
| `WireReader.Trackers` | libs/motionConnectorWire/src/FrameWire.cpp:748-765 | The tracker loop |
| `WireReader.Actors` | libs/motionConnectorWire/src/FrameWire.cpp:452-469 | The actor loop |

## Left out

- Link.EveryScheduleIsFaithful: one client and one server; a server's other peers, the accept loop, lingering sockets, idle and handshake timeouts and the retry backoff of Endpoint.cpp are not modelled, and a socket that fails is one that takes nothing more.
- Outbox.Peer.Flush: retiring a peer after a failed write, and the events and diagnostics that go with it, are not modelled; the books are kept up to that moment.
- Handshake.RequestIsAccepted: SHA-1 is uninterpreted, so nothing is said of collisions; the explanatory text and the origin reported beside a refusal are kept only where the answer's bytes or the session's event carry them.
- Session.Connection.Next: the inbound buffer is cleared when a session ends, where the program leaves unread bytes that nothing looks at again; the `detail` text of events is not modelled.
- MocopiMapping.MapMotionFrame: basis conversion and quaternion normalisation happen before the model begins, so rounding is not modelled; offsets are compared for equality as the program compares them.
- TrackerSolve.SolveTrackerPose: double and single precision are one group of rotations; the `detail` text is not modelled.
- OscPacket.DecodeOscPacket: floats stay bits, and a refusal is a reason, an offset and a subject rather than a sentence.
- VmcRuns.RunKeeps: clocks are finite reals, a hypothesis about the sender, since the message decoder does not check; model metadata and provenance strings are not modelled.
- VrchatSessions.DiscontinuityIsMeasured: positions are real vectors and distances are compared by their squares, so the rounding of a single-precision length at the bound is not modelled; diagnostics are not.
- VrchatAssembler.TrackerFrameAssembler.Push: Reset is not modelled, so runs are runs without it.
- MocopiFrames.RunKeeps: the mapping of a frame through a rig is a parameter here and is modelled in MocopiMapping; the incomplete-frame counters and Reset are not modelled.
- RelayFrames.RunKeeps: the frame buffer behind the connector, its capacity and the connection state it sets are not modelled, and a frame is counted delivered when it is handed to the buffer; the rewritten receive time is not kept.
- MotionPackets.PacketIsReadBack: the list of unread chunks a decoder also returns is not modelled, so neither is how it changes between two arrangements of one packet; nor are diagnostics beyond the code of a refusal.
- CaptureReading.RewrittenIsReadBack: times are exact decimals, where the program rounds them to double precision; a time spelled finer than a double can tell, such as 4503599627370497.0000001, survives rewriting in the program and is lost here.
- PacketCapture.ReadPacketCapture: a time is the exact decimal its text spells, so its rounding to double precision and the refusal of one past the double range are not modelled; a time and a length run together with only a sign between them (`1.5+3`), which the stream extractors take apart, is refused here, and so is a hexadecimal time, which some standard libraries read.
- WireRoundTrip.WrittenIsRead: the text of a message is not modelled; that a number's text reads back to the number, and that a number read is finite, are hypotheses about the JSON layer, as its header promises them. Which refusal is reported, and at which path, is not modelled.
- WireReading.WrittenIsParsed: the lexer is not modelled; the lemma speaks of the tree it would have to build.
- Utf8.ReplaceInvalidUtf8: the search for the first invalid field of a frame, which uses the same validator, is not modelled.
- Sockets, polling, clocks, threads and platform code: they appear only as the sizes and outcomes of reads and writes.
- Frame buffers and datagram queues, the C interface's views and handles, the Python binding, the OpenXR source and the command-line tools: plumbing around the parts modelled.
- Diagnostic texts, code tables and severities.
