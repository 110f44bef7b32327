# cube-streamer signaling and cadence core, in Dafny

cube-streamer renders a spinning cube and streams it to a browser over WebRTC.
Its server has three parts:

- a GStreamer pipeline, which ends in webrtcbin;
- a small WebSocket signaling server with one peer and one outbound mailbox;
- a fixed-rate main loop that renders, pushes and polls.

This project models the parts of that server that decide behaviour. Each
module mirrors one source file.

- `CText` (`ctext.dfy`) holds the C library pieces the core relies on:
  - C strings read up to their NUL;
  - `strchr`, `strstr` and `strlen`;
  - `atoi`;
  - printf's `%d`;
  - `snprintf` truncation;
  - the `(int)` cast of a `guint`.
- `WireCodec` (`wire_codec.dfy`) holds the codec of `server/src/signaling_ws.c`:
  - `json_escape`, which fills an array with an index loop;
  - `json_unescape_inplace`, which rewrites an array with read and write indices;
  - the field scanners `extract_json_string` and `extract_json_int`;
  - the exact wire text of the two broadcast functions.
- `Signaling` (`signaling.dfy`) holds the session of `server/src/signaling_ws.c`:
  - `Step` is a transition over its two fields: `client_wsi`, at most one peer, and `pending`, at most one outbound message.
  - `Stage` is what a broadcast does to those fields.
  - `Run` follows a trace of callbacks and broadcasts.
  - The class `Session` holds the same fields as mutable state.
  - libwebsockets is abstract: its callbacks are events. The `lws_write` and `lws_callback_on_writable` calls it receives are recorded, in order, as transport operations.
  - An application callback that `ws_callback` invokes is returned as an upcall, which the caller performs next. Each branch invokes its callback as its last action, so the order of effects is the same.
- `Pipeline` (`pipeline.dfy`) holds the entry points of `server/src/pipeline_gst.c`:
  - the SDP type mapping;
  - the guards of each entry point;
  - the PTS/DTS stamping of pushed buffers;
  - the synchronous `on_local_sdp` callback of `cs_pipeline_create_offer`;
  - `on_ice_candidate`.
  - GStreamer's answers are parameters. These are the offer a promise carries, whether an SDP text parses, and whether appsrc accepts a buffer.
  - The signals emitted on webrtcbin and the buffers queued on appsrc are recorded.
- `FrameSource` (`frame_source.dfy`) models `cs_render_frame` of `server/src/render_egl.c` as a frame source. It keeps the guards and the copy of the drawn picture into the caller's buffer. The picture itself is an input.
- `Config` (`config.dfy`) holds the key=value loader of `server/src/config.c`:
  - the defaults;
  - `apply_kv`;
  - the `fgets` loop, which cuts the 256-byte line buffer with NULs in place;
  - the pure reading it implements: chunks of at most 255 characters, a split at the first `=`, the value cut at the first newline, and last one wins.
- `App` (`app.dfy`) holds the forwarders of `server/src/main.c`, which wire pipeline events to the mailbox and inbound messages to the pipeline.
  - `World` is the state of session and pipeline together.
  - `ServeW` and `PollW` are the effect of one `cs_signaling_poll` that dispatches a batch of wake-ups. A wake-up is a libwebsockets event or a local ICE candidate from webrtcbin.
  - The class `Application` performs the same steps on the `Session` and `Pipeline` objects.
- `MainLoop` (`main_loop.dfy`) holds the `while (1)` cadence loop of `server/src/main.c`:
  - the clock readings are an input, one per pass;
  - `Run` is the loop as a function of the readings;
  - `FrameLoop` and `Tick` are the loop itself over the frame array.

Five behaviours of the source are modelled as written and proved as such:

- Closing a connection does not empty the mailbox. A message staged for a peer that disconnects goes to the next peer (`Signaling.StaleMessageReachesNextPeer`).
- Staging with no peer returns -1 but keeps the message (`Signaling.StagedWithoutPeer`).
- The value scanner stops at the first `"`, so a description that contains a quote does not survive the round trip (`WireCodec.QuoteCutsDescription`).
- A second connection supersedes the first. A writable callback for the earlier handle writes nothing, and the message waits for the new peer (`Signaling.Superseded`).
- The key scanner takes the first occurrence of `"sdpMid"` anywhere in the text. A local candidate whose text is exactly `sdpMid` therefore reaches the peer with mid `sdpMid`, whatever mid was sent (`Signaling.IceMidShadowDispatch`).

Texts that the broadcast functions and the callbacks take are the contents of C strings. Where a contract needs it, it requires that they hold no NUL, since a C string cannot.

## Model

| member | source | states |
|---|---|---|
| CText.IndexOf | server/src/signaling_ws.c:85-97 | strchr from a position: the first index holding the character, or none when no later index holds it |
| CText.Find | server/src/signaling_ws.c:81 | strstr: the first position at which the pattern occurs, or none when it occurs nowhere |
| CText.CStr | server/src/signaling_ws.c:137 | a buffer read as a C string: the characters before the first NUL, which contain no NUL |
| CText.Strlen | server/src/signaling_ws.c:164 | the loop stops at the first NUL, and the characters before it are the buffer read as a C string |
| CText.Snprintf | server/src/signaling_ws.c:98-103 | a text written into a buffer of `size` bytes: a prefix of it, whole when it fits and otherwise cut to size - 1 characters |
| CText.GuintToInt | server/src/pipeline_gst.c:36 | the `(int)` cast of a guint: a 32-bit signed value congruent to it modulo 2^32 |
| CText.NatToDecimalValue | server/src/signaling_ws.c:283 | the digits `%d` prints for a natural number have that number as their value |
| CText.NatToDecimalLength | server/src/signaling_ws.c:275-284 | a number prints in at most k digits exactly when it is below 10^k |
| CText.AtoiOfDecimal | server/src/signaling_ws.c:120 | atoi reads back any integer printed with `%d`, whatever non-digit text follows it |
| CText.AtoiOfDigits | server/src/config.c:9 | atoi of a run of digits followed by a non-digit is the value of the digits |
| CText.AtoiOfSignedDigits | server/src/config.c:9 | atoi of a minus sign and digits is the negated value of the digits |
| CText.AtoiWithoutDigits | server/src/signaling_ws.c:120 | atoi of a text with no sign or digit after its white space is 0 |
| WireCodec.EscapeChar | server/src/signaling_ws.c:34-45 | the four special characters become a backslash pair; every other character is copied unchanged |
| WireCodec.Escape | server/src/signaling_ws.c:16-26 | the escaped length is the input length plus the count of the four special characters |
| WireCodec.EscapeConcat | server/src/signaling_ws.c:32-46 | escaping is character by character: the escape of a concatenation is the concatenation of the escapes |
| WireCodec.EscapeAvoids | server/src/signaling_ws.c:16-49 | escaping introduces no character other than the backslash and the letters n and r |
| WireCodec.JsonEscape | server/src/signaling_ws.c:16-49 | json_escape allocates length + extra + 1 bytes and fills them with the escaped text and a NUL |
| WireCodec.PutEscaped | server/src/signaling_ws.c:34-45 | one step of the copy loop appends the escape of one character at the write index |
| WireCodec.Unescape | server/src/signaling_ws.c:51-76 | unescaping never lengthens a text and introduces no NUL |
| WireCodec.UnescapeEscape | server/src/signaling_ws.c:16-76 | unescape undoes escape for every text |
| WireCodec.UnescapeAfterEscape | server/src/signaling_ws.c:51-76 | unescaping an escaped text followed by anything restores the text and unescapes the rest on its own |
| WireCodec.UnescapePlain | server/src/signaling_ws.c:55-73 | a text without backslash is unchanged by unescaping |
| WireCodec.UnescapeTrailingBackslash | server/src/signaling_ws.c:55 | a trailing lone backslash is kept verbatim |
| WireCodec.UnescapeNoNewQuote | server/src/signaling_ws.c:51-76 | unescaping a text with no quote yields none |
| WireCodec.UnescapeInPlace | server/src/signaling_ws.c:51-76 | the buffer read as a C string afterwards is the unescape of what it held before |
| WireCodec.UnescapeStep | server/src/signaling_ws.c:54-74 | one pass of the loop keeps the unread suffix intact and what is written plus the unescape of what is left invariant |
| WireCodec.UnescapePairAt | server/src/signaling_ws.c:55-71 | a backslash followed by n, r, `"` or a backslash writes one decoded character and consumes two, keeping written text plus the unescape of the rest invariant |
| WireCodec.CopyCharAt | server/src/signaling_ws.c:73 | any other character is copied as it is and consumed, keeping the same invariant |
| WireCodec.KeyColon | server/src/signaling_ws.c:80-88 | the scan position found for a key is a colon |
| WireCodec.RawString | server/src/signaling_ws.c:89-97 | the raw value starts just after an opening quote, ends at the next closing quote, and holds no quote |
| WireCodec.ExtractString | server/src/signaling_ws.c:78-106 | a value exactly when key, colon and both quotes are found; it is shorter than the buffer and holds no quote |
| WireCodec.ExtractAtSpan | server/src/signaling_ws.c:98-104 | a raw value that fits the buffer is returned unescaped and uncut |
| WireCodec.ExtractJsonString | server/src/signaling_ws.c:78-106 | returns -1 and leaves the buffer untouched exactly when the field is missing; otherwise 0 with the decoded value in the buffer |
| WireCodec.CopyValue | server/src/signaling_ws.c:98-103 | the copy cut to out_len - 1 and terminated is the snprintf-style truncation of the raw value |
| WireCodec.ExtractInt | server/src/signaling_ws.c:108-122 | a value exactly when the quoted key and a following colon are found |
| WireCodec.ExtractJsonInt | server/src/signaling_ws.c:108-122 | returns 0 and the atoi value after the colon when the key and colon are found, and otherwise -1 leaving the value untouched |
| WireCodec.StagedSdp | server/src/signaling_ws.c:253-260 | the buffer of strlen(type) + strlen(escaped) + 32 bytes holds the whole SDP message untruncated |
| WireCodec.StagedIce | server/src/signaling_ws.c:275-284 | the staged ICE message is a prefix of the full text, and equal to it exactly when the index prints in at most 5 characters |
| WireCodec.IceFitsExactly | server/src/signaling_ws.c:275-284 | the ICE message is staged whole exactly for line indices from -9999 to 99999 |
| WireCodec.SdpTypeDecodes | server/src/signaling_ws.c:139 | for a type of at most 15 characters with no quote or backslash, the type field of the staged SDP message decodes into 16 bytes as that type |
| WireCodec.SdpBodyDecodes | server/src/signaling_ws.c:145 | for a type of at least 4 characters with no quote, and a description with no quote whose escape is under 8192 characters, the sdp field decodes as that description |
| WireCodec.SdpWireDecodes | server/src/signaling_ws.c:243-263 | for a type of 4 to 15 characters with no quote or backslash, and a description with no quote whose escape is under 8192 characters, decoding the SDP message gives back both |
| WireCodec.SdpWireNoNul | server/src/signaling_ws.c:260 | an SDP message built from NUL-free parts holds no NUL |
| WireCodec.EscapePlain | server/src/signaling_ws.c:34-45 | a text with no quote, backslash, newline or carriage return is its own escape |
| WireCodec.IceTypeDecodes | server/src/signaling_ws.c:139 | when candidate and mid hold no quote, the type field of the ICE message decodes as "ice" |
| WireCodec.IceCandidateDecodes | server/src/signaling_ws.c:152 | a candidate with no quote whose escape is under 1024 characters decodes from the ICE message as itself, when the mid holds no quote |
| WireCodec.IceIndexDecodes | server/src/signaling_ws.c:154 | when candidate and mid hold no quote, the sdpMLineIndex field of the ICE message reads back as the index that was printed, for every index |
| WireCodec.MidKeyInCandidate | server/src/signaling_ws.c:81 | the key `"sdpMid"` occurs inside the candidate field exactly when the candidate is the text sdpMid |
| WireCodec.IceMidDecodes | server/src/signaling_ws.c:153 | a mid of under 32 characters with no quote or backslash decodes as itself, unless the candidate is the text sdpMid |
| WireCodec.IceWireDecodes | server/src/signaling_ws.c:265-287 | for such a candidate and mid, decoding the ICE message gives back type "ice", the candidate, the index and the mid |
| WireCodec.IceMidShadowed | server/src/signaling_ws.c:78-106 | with the candidate sdpMid, the sdpMid field decodes as sdpMid whatever mid was sent |
| WireCodec.IceWireNoNul | server/src/signaling_ws.c:282-284 | an ICE message built from NUL-free parts holds no NUL |
| WireCodec.QuoteCutsDescription | server/src/signaling_ws.c:94 | a description with a quote decodes as the text before the quote plus a backslash, not as itself |
| Signaling.Dispatch | server/src/signaling_ws.c:136-159 | RECEIVE reports a remote description exactly for type answer or offer with an sdp field, a remote candidate exactly for type ice with a candidate field (mid defaulting to "0", index to 0), and otherwise nothing |
| Signaling.SdpWireDispatch | server/src/signaling_ws.c:136-147 | an answer or offer whose description holds no quote or NUL and escapes to under 8192 characters is dispatched to on_remote_sdp with the same type and description |
| Signaling.IceWireDispatch | server/src/signaling_ws.c:136-156 | an ICE message whose candidate (not the text sdpMid) and mid fit their buffers and hold no quote or NUL, and whose mid holds no backslash, is dispatched to on_remote_ice with the same candidate, index and mid |
| Signaling.IceMidShadowDispatch | server/src/signaling_ws.c:136-156 | an ICE message whose candidate is the text sdpMid is dispatched with mid sdpMid, whatever mid it carried |
| Signaling.OnReceive | server/src/signaling_ws.c:136-159 | the RECEIVE branch, run over the decode buffers, makes the upcall Dispatch describes |
| Signaling.ReceiveDescription | server/src/signaling_ws.c:143-147 | the answer/offer branch, run over its 8192-byte buffer |
| Signaling.ReceiveCandidate | server/src/signaling_ws.c:148-156 | the ice branch, run over its candidate and mid buffers with their defaults |
| Signaling.Step | server/src/signaling_ws.c:124-186 | ESTABLISHED adopts the new handle and asks for an offer when hooked; CLOSED forgets only the current handle and keeps the mailbox; WRITEABLE writes the mailbox and empties it exactly for the current handle; nothing else writes |
| Signaling.Session.Callback | server/src/signaling_ws.c:124-186 | ws_callback changes the two fields and the transport as Step does, and returns its upcall |
| Signaling.Stage | server/src/signaling_ws.c:235-241 | staging replaces the mailbox, then asks for a writable callback on the current peer (0) or reports -1 when there is none |
| Signaling.Session.SendPending | server/src/signaling_ws.c:235-241 | send_pending requests a writable callback for the current peer, or returns -1 without one |
| Signaling.SdpBroadcast | server/src/signaling_ws.c:243-263 | a NULL argument returns -1 and changes nothing; otherwise the mailbox holds the exact SDP wire text |
| Signaling.IceBroadcast | server/src/signaling_ws.c:265-287 | a NULL candidate returns -1 and changes nothing; otherwise the mailbox holds the ICE wire text with mid "0" when NULL |
| Signaling.FormatSdp | server/src/signaling_ws.c:253-260 | the message formatted into the sized buffer is the staged SDP text |
| Signaling.FormatIce | server/src/signaling_ws.c:275-284 | the message formatted into the sized buffer is the staged ICE text |
| Signaling.Session.BroadcastSdp | server/src/signaling_ws.c:243-263 | cs_signaling_broadcast_sdp changes the fields and the transport as SdpBroadcast does |
| Signaling.Session.BroadcastIce | server/src/signaling_ws.c:265-287 | cs_signaling_broadcast_ice changes the fields and the transport as IceBroadcast does |
| Signaling.Session.constructor | server/src/signaling_ws.c:193-199 | a new session has no peer, an empty mailbox and no transport history |
| Signaling.StagingEffect | server/src/signaling_ws.c:248-262 | one broadcast writes nothing and leaves exactly its own message in the mailbox |
| Signaling.NoPeerNoTraffic | server/src/signaling_ws.c:160-163 | with no peer and no connection event, nothing is written and no peer appears |
| Signaling.WritesAreStaged | server/src/signaling_ws.c:160-174 | over any trace, every write carries the initial or a staged message, and writes plus what is left in the mailbox never outnumber the messages |
| Signaling.ApplyAccounting | server/src/signaling_ws.c:160-174 | the same accounting for a single callback or broadcast |
| Signaling.LastWriteWins | server/src/signaling_ws.c:248 | of two messages staged before a writable callback, only the second is written, and the mailbox empties |
| Signaling.Superseded | server/src/signaling_ws.c:130-131 | after a second connection, a writable callback for the first handle writes nothing and the message stays for the second |
| Signaling.CloseThenReconnect | server/src/signaling_ws.c:176-180 | a message in the mailbox outlives the close of its peer and is written to the next peer |
| Signaling.StaleMessageReachesNextPeer | server/src/signaling_ws.c:176-180 | a message staged for a peer that disconnects is written, once, to the next peer that connects |
| Signaling.StagedWithoutPeer | server/src/signaling_ws.c:236-238 | staging without a peer returns -1, yet the message reaches the first peer that connects |
| Pipeline.SdpTypeFromString | server/src/pipeline_gst.c:17-31 | NULL and "offer" map to offer, "answer" and "pranswer" to themselves, and every other text to rollback, in both directions |
| Pipeline.TypeNameRoundTrip | server/src/pipeline_gst.c:17-31 | each type's name maps back to that type |
| Pipeline.EveryTypeReachable | server/src/pipeline_gst.c:17-31 | the mapping is onto the four types |
| Pipeline.IceUpcall | server/src/pipeline_gst.c:33-38 | a candidate goes to on_local_ice exactly when it is set, with mid "0" and the index cast to int |
| Pipeline.Pipeline.OnIceCandidate | server/src/pipeline_gst.c:33-38 | on_ice_candidate makes the upcall IceUpcall describes |
| Pipeline.PushFrame | server/src/pipeline_gst.c:145-162 | -1 for a NULL pipeline or buffer; otherwise a buffer stamped PTS = DTS = pts_ns, and 0 exactly when appsrc accepts it |
| Pipeline.SetRemote | server/src/pipeline_gst.c:164-180 | -1 for a NULL pipeline or text or an unparsable text; otherwise set-remote-description with the mapped type |
| Pipeline.CreateOffer | server/src/pipeline_gst.c:182-216 | emits create-offer, then set-local-description for an offer; returns its text and hands the same text to on_local_sdp as an "offer" |
| Pipeline.AddIce | server/src/pipeline_gst.c:218-226 | -1 for a NULL pipeline or candidate; otherwise add-ice-candidate with the line index, the mid ignored |
| FrameSource.RenderFrame | server/src/render_egl.c:287-296 | -1 for a NULL renderer or buffer or a buffer shorter than width * height * 4; otherwise 0, one more frame, and the picture at the front of the buffer |
| Config.ApplyKvSetting | server/src/config.c:7-19 | a recognised key sets its own field (atoi, or the atof text for fps) and no other; any other key changes nothing |
| Config.ChunksCover | server/src/config.c:47 | the fgets chunks of a file spell the file, each of 1 to 255 characters, with a newline only at its end |
| Config.ChunkLenStops | server/src/config.c:47 | one fgets call stops after a newline, at 255 characters or at the end of the file |
| Config.Fgets | server/src/config.c:47 | fgets copies the next chunk into the line buffer and terminates it |
| Config.BeforeSpec | server/src/config.c:48 | the text before the first occurrence of a character is a prefix without it, followed by it when it occurs |
| Config.Strchr | server/src/config.c:48 | strchr over the buffer finds the first occurrence within the C string, or none |
| Config.CutValue | server/src/config.c:52-58 | the NULs written into the line leave the key before the `=` and the value cut at the first newline |
| Config.ParseLineShape | server/src/config.c:48-58 | a line is skipped exactly when it has no `=`; otherwise key, `=` and value spell the front of the line, the key without `=` and the value without newline |
| Config.ApplyBuffer | server/src/config.c:48-59 | handling one line in its buffer applies the parsed key and value to the configuration |
| Config.ReadLine | server/src/config.c:47-59 | one iteration consumes at least one character and keeps the result of the whole loop invariant |
| Config.ReadLines | server/src/config.c:47-60 | the loop applies the chunks of the file in order |
| Config.LastOneWins | server/src/config.c:47-60 | each field ends with the value of the last line naming its key, or keeps what it had |
| Config.NoKeysNoChange | server/src/config.c:47-60 | a file with no recognised key leaves the configuration unchanged |
| Config.Load | server/src/config.c:21-64 | -1 for a NULL config; otherwise the defaults first, 0 for a NULL path, -1 with the defaults for an unreadable file, else 0 with the file applied |
| App.PollKeepsFrames | server/src/main.c:21-47 | no callback queues a frame |
| App.OfferOnConnect | server/src/main.c:21-32 | a connection leads to create-offer, set-local-description and the offer staged for the new peer |
| App.OfferReachesPeer | server/src/main.c:21-32 | a connection followed by its writable callback writes the offer text to that peer |
| App.AnswerApplied | server/src/main.c:34-37 | an answer from the peer whose description holds no quote or NUL and escapes to under 8192 characters becomes set-remote-description of type answer with the same text |
| App.UnparsedAnswerIgnored | server/src/main.c:34-37 | such an answer whose text does not parse changes nothing |
| App.CandidateApplied | server/src/main.c:39-42 | an ICE message from the peer, with a candidate and mid as in Signaling.IceWireDispatch, becomes add-ice-candidate with the same index and candidate and changes nothing else |
| App.CandidateStaged | server/src/main.c:44-47 | a local candidate of any index is staged as the ICE message for the index cast to int, with mid "0", with a writable request for the current peer and no other change |
| App.CandidateStagedWhole | server/src/signaling_ws.c:275-284 | for a line index of at most 99999 the staged message is the whole ICE wire text with mid "0" |
| App.ReceiveTouchesOnlyPipeline | server/src/main.c:34-42 | an inbound message changes neither the session nor the transport nor the frames, and emits at most one signal |
| App.Application.constructor | server/src/main.c:72-107 | the wiring starts with no peer, an empty mailbox and no signals or frames |
| App.Application.OnOfferNeeded | server/src/main.c:21-27 | on_offer_needed runs create-offer and forwards its on_local_sdp |
| App.Application.OnLocalSdp | server/src/main.c:29-32 | on_local_sdp broadcasts the description unchanged |
| App.Application.OnRemoteSdp | server/src/main.c:34-37 | on_remote_sdp sets the remote description unchanged |
| App.Application.OnRemoteIce | server/src/main.c:39-42 | on_remote_ice adds the candidate unchanged |
| App.Application.OnLocalIce | server/src/main.c:44-47 | on_local_ice broadcasts the candidate unchanged |
| App.Application.Poll | server/src/main.c:134 | one poll serves its wake-ups in order, as PollW describes |
| MainLoop.Deadline | server/src/main.c:120-135 | the deadline ends exactly frame_ns past the start per firing, and one frame is rendered per firing |
| MainLoop.FiringLowerBound | server/src/main.c:124-135 | the k-th firing happens at a reading of at least start + k * frame_ns |
| MainLoop.FiringRate | server/src/main.c:119-135 | with readings up to T, at most (T - start) / frame_ns + 1 firings happen |
| MainLoop.FiredAreReadings | server/src/main.c:123-135 | every firing is at one of the clock readings |
| MainLoop.EarlyWakeups | server/src/main.c:124-128 | passes before the deadline change nothing |
| MainLoop.QueueIsPushed | server/src/main.c:130-134 | appsrc receives exactly the frames the firing passes push, in order |
| MainLoop.FireQueues | server/src/main.c:130-134 | a firing queues its own frame, if accepted, and nothing else |
| MainLoop.PushedAfterDeadline | server/src/main.c:123-131 | every pushed frame is stamped at or after the deadline it met, with DTS equal to PTS |
| MainLoop.PushedAbove | server/src/main.c:131 | frames pushed from readings of at least lo carry stamps of at least lo |
| MainLoop.StampsMonotone | server/src/main.c:123-131 | with a monotonic clock the pushed timestamps never go backwards |
| MainLoop.FiringKeepsOrder | server/src/main.c:130-135 | a firing puts its frame in front of frames stamped no earlier |
| MainLoop.Tick | server/src/main.c:109-134 | frame_size is the least size cs_render_frame accepts, so rendering succeeds and the frame pushed is the picture drawn, then one poll |
| MainLoop.FrameLoop | server/src/main.c:119-136 | the loop ends in the state, deadline and frame count that Run gives for its readings |

## Left out

- I/O and libwebsockets plumbing are not modelled. These are `lws_create_context`, `lws_service`, `lws_write`, `lws_callback_on_writable`, `fopen` and `fclose`. Their effects are events, recorded operations or a map from paths to file texts.
- `cs_signaling_create` and `cs_signaling_destroy` are left out, apart from the initial state of a session. So are `cs_pipeline_create`, `cs_pipeline_destroy` and `cs_signaling_poll`'s guard. These functions build or tear down library objects.
- The GStreamer graph is not modelled inside. The promise wait, `gst_sdp_message_parse_buffer` and appsrc's flow return are parameters.
- Floating point is left out. This covers fps, `atof`, `frame_ns` (1e9 / fps, truncated), the buffer duration `GST_SECOND / fps` and the rotation angle. `frame_ns` is a given natural number.
- The clock and `nanosleep` are inputs: one reading per pass of the loop. The sleep of `tv_nsec = next_tick - now` is not modelled, nor its overflow past 1e9 when frame_ns is a second or more.
- 64-bit wrap-around of `next_tick` and of the clock, and `size_t` wrap of width * height * 4, are not modelled. Integers are unbounded.
- Allocation never fails in the model. If `json_escape` fails after `free(signaling->pending)`, the slot is left dangling (server/src/signaling_ws.c:248-252 and 270-273). The model does not capture this.
- Concurrency is not modelled. webrtcbin may call `on_ice_candidate` from its own thread. The model serves it as one more wake-up of the poll.
- The startup sequence and error exits of `main` are left out, and so is the cleanup after the loop. The loop never exits, so the model follows finite prefixes of its passes.
- The pixels are left out. EGL, shaders, the matrices and `glReadPixels` are not modelled; the drawn picture is an input.
- The RECEIVE length `len` is ignored, as the source ignores it. The payload is read up to its first NUL.
- Full JSON is not modelled. Only the four escapes the source handles are, and other control characters pass through.
- Signaling.IceWireDispatch: excludes the candidate text sdpMid, because for it the source decodes a different mid; Signaling.IceMidShadowDispatch states what happens then.
- Signaling.IceBroadcast: states the staged text exactly only for line indices from -9999 to 99999. Outside that range the message is the truncated prefix that WireCodec.StagedIce states.
- CText.Atoi: models C's `atoi` without overflow, which C leaves undefined. The result is the mathematical value of the digits.
- Config.ApplyKv: writes to the fields of `cs_config` are modelled as an updated value, which `Config.Load` stores in the caller's record.
- The browser client and the headers are not part of this model.
