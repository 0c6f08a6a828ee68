# Peer bookkeeping of a mesh video-call client

The client in `main.js` joins a room over a socket.io signaling channel. It
keeps one WebRTC peer connection per remote participant. This project models
the bookkeeping it does around those connections:

- **Peer registry.** The module-level array `pc` holds one record per remote
  peer: `id`, `isCallAnswered`, `iceCandidates`, and opaque connection and
  stream handles. `createPeer` pushes a record without checking for a
  duplicate. The handlers look a record up with `pc.find` by exact id. Hang-up
  replaces the array with a `filter` by id.
- **Offerer-side candidate buffer.** A peer that joins gets an offer from this
  client. Until that peer's `sdp-answer` is handled, the record's local ICE
  candidates are pushed onto `iceCandidates`. Afterwards they are emitted at
  once. The answer handler sets `isCallAnswered` and emits the buffer in order.
  It does not clear the buffer. A record created for an incoming offer (the
  answerer side) emits every candidate at once.
- **Hang-up rule.** A connection state of `closed` or `disconnected` removes
  every record with that peer's id. Any other state, `connected` included,
  does nothing.

Modules:

- `Signaling` (`signaling.dfy`): peer ids, opaque SDP and candidate values,
  the outbound socket messages and the connection states.
- `CandidateBuffer` (`candidate_buffer.dfy`): one record's candidate logic as
  pure steps. `Run` folds the steps over a record's events. Its lemmas say
  what reaches the socket and in which order.
- `Registry` (`registry.dfy`): the `Peer` record class, the exact-id lookup
  `FindIndex`, the hang-up filter `Without`, and their lemmas.
- `App` (`client.dfy`): the `Client` class. It holds the registry `pc` and the
  log `outbox` of everything emitted on the socket. It has one method per
  socket handler and per connection callback. Each method is one atomic step
  and is proved against the `CandidateBuffer` and `Registry` functions.
  `Valid()` is kept by every handler and callback. It says that an offerer record's
  candidates never reach the log before that record's first answer was
  handled, and that its offer comes earlier still.
- `Scenarios` (`scenarios.dfy`): end-to-end event sequences from a fresh client. They are
  proved from the `Client` contracts alone.

Two ghost fields on `Client` keep the proofs precise. `peers` holds every
record ever created: a record's closures still fire after the hang-up filter
has dropped it. `sender` holds the record each message was emitted for. The
ordering property has to be stated per record, not per id: in glare (a peer
that both joins and sends its own offer) two records share one id, and the
answerer record emits candidates for that id before any answer arrives.

Inputs the browser supplies become parameters: the offer from `createOffer`,
the outcome of `setRemoteDescription`/`createAnswer` (None when the browser
rejects the remote offer), each `e.candidate` (None for the null
end-of-gathering candidate) and each connection state. The connection handle
is represented by the calls the client makes on it. These are the installed
`onicecandidate` closure, the local and remote descriptions, and the remote
candidates passed to `addIceCandidate`.

## Model

| member | source | states |
|---|---|---|
| `CandidateBuffer.OnLocalCandidate` | main.js:129-137 | Each non-null candidate that reaches an installed closure is appended to the end of the buffer or sent, never both, never dropped and never replaced by another value. Nothing else enters the buffer or the sent list. An offerer record sends nothing before it is answered. An answerer record never changes its state. |
| `CandidateBuffer.OnAnswer` | main.js:65-69 | The record found by `sdp-answer` becomes answered and keeps its closure. Its buffer is kept as it was, and exactly that buffer is emitted, in order. |
| `CandidateBuffer.BufferedUntilAnswered` | main.js:129-132 | Before the answer, an offerer record appends every non-null candidate to the end of its buffer in generation order and emits nothing. |
| `CandidateBuffer.SentOnceAnswered` | main.js:133-135 | Once answered, an offerer record emits each non-null candidate at once, in order, and leaves the buffer unchanged. |
| `CandidateBuffer.AnswererNeverBuffers` | main.js:152-156 | An answerer record never buffers. It emits exactly the gathered candidates in order, even if `sdp-answer` messages also reach it. |
| `CandidateBuffer.EveryCandidateSentOnce` | main.js:61-70 | For an offerer record answered once, every candidate gathered before or after the answer is emitted exactly once, in generation order. The pre-answer candidates stay in the buffer. |
| `CandidateBuffer.SecondAnswerResends` | main.js:65-69 | Because the buffer is never cleared, a second `sdp-answer` for the same record re-emits every candidate gathered before the first one. |
| `CandidateBuffer.RunConcat` | main.js:129-137 | Running two stretches of events one after the other equals running their concatenation; the first stretch's emissions come first. |
| `Registry.Peer.constructor` | main.js:81-87 | A new record has the given id, `isCallAnswered` false, an empty candidate buffer and no handler installed. |
| `Registry.FindIndex` | main.js:62 | `pc.find` by exact id gives the first record with that id, or nothing when no record has it. |
| `Registry.Lookup` | main.js:62 | The record `pc.find` returns: none exactly when no record has the id; otherwise a registered record with that id, and no record with the id comes before it. |
| `Registry.AppendKeepsFirstMatch` | main.js:80-91 | Pushing a record never changes which record a lookup finds for an id already present. A repeated id gives one more entry with that id, not a replacement. |
| `Registry.Without` | main.js:118 | After the filter no record has the id, every record with another id is still there, and nothing new appears. |
| `Registry.WithoutConcat` | main.js:118 | The filter works piecewise on any split of the registry, so surviving records keep their original order. |
| `Registry.WithoutAbsent` | main.js:118 | A registry with no record for the id is left exactly as it was. |
| `Registry.WithoutIdempotent` | main.js:111-118 | Filtering twice for the same id gives the same registry as filtering once. |
| `Registry.WithoutLookup` | main.js:118 | After the filter the id has no record. Every other id keeps its record count and is looked up to the same record as before. |
| `App.Client.constructor` | main.js:13 | The client starts with an empty registry and an empty socket log. |
| `App.Client.Emit` | main.js:68 | `socket.emit` appends exactly one message to the end of the socket log and leaves the earlier messages as they were. |
| `App.Client.CreatePeer` | main.js:80-91 | Exactly one new record is appended with the given id, not answered and with an empty buffer. Existing entries stay unchanged and in order. |
| `App.Client.CreateRTCOffer` | main.js:124-145 | On `new-peer-joined` the client appends a record with the buffering closure, sets the offer as local description and emits `offer` for that id. The offer is emitted only after the record exists. |
| `App.Client.CreateRTCAnswer` | main.js:147-166 | On `sdp-offer` the client appends a record with the sending closure and hands over the remote offer. It emits `answer` when the browser produced one. On rejection the record stays and nothing is emitted. |
| `App.Client.OnIceCandidate` | main.js:129-137 | A local candidate changes the captured record and the log exactly as `OnLocalCandidate` says, whether or not the record is still registered. |
| `App.Client.HandleSdpAnswer` | main.js:61-70 | For an unknown id the handler faults and nothing changes. Otherwise the first record with the id gets the remote description and `isCallAnswered`, and the log grows by its buffer in order as `ice-candidate` for that id. The buffer is kept. |
| `App.Client.EmitCandidates` | main.js:67-69 | The `forEach` emits the given candidates in order, each tagged with the record's id. |
| `App.Client.HandleNewIceCandidate` | main.js:72-75 | For an unknown id the handler faults. Otherwise the candidate is handed to the first record with that id, and nothing else changes. |
| `App.Client.OnConnectionStateChange` | main.js:107-122 | `closed` or `disconnected` makes the registry `Without` the record's id. Every other state leaves it unchanged. |
| `App.Terminal` | main.js:111-114 | The hang-up test holds for `closed` and `disconnected` and fails for every other state: `new`, `connecting`, `connected` and `failed`. |
| `App.OffererCandidateOrder` | main.js:124-142 | In the log, an `ice-candidate` for an offerer record comes after its `offer` for the same id, and no earlier than the point where its first `sdp-answer` was handled. |
| `Scenarios.OffererExchange` | main.js:61-70 | Join, then two candidates before the answer: only the offer is emitted until the answer is handled. Then the two candidates follow in generation order and stay in the buffer. |
| `Scenarios.CandidateAfterAnswer` | main.js:129-137 | After the answer, a new candidate is emitted at once and the null end-of-gathering candidate does nothing. |
| `Scenarios.AnswerWithoutJoin` | main.js:147-166 | An offer from a peer never seen joining still creates an answerer record and emits the answer, then candidates at once. |
| `Scenarios.RejectedOffer` | main.js:147-163 | If the browser rejects the remote offer, no answer is emitted, no local description is set, and the record stays registered. |
| `Scenarios.Teardown` | main.js:107-122 | `connected` keeps the record. `disconnected` removes it. A second terminal event changes nothing. |
| `Scenarios.UnknownPeer` | main.js:61-75 | `sdp-answer` and `new-ice-candidate` for an unknown id fault and emit nothing. |
| `Scenarios.DuplicateAnswer` | main.js:65-69 | A repeated `sdp-answer` emits the buffered candidate a second time. |
| `Scenarios.Glare` | main.js:52-59 | A peer that joins and also sends its own offer gets two records with one id. An `ice-candidate` for that id is emitted before any answer from it. |
| `Scenarios.AnswerFindsFirstRecord` | main.js:61-65 | When the answerer record comes first, `sdp-answer` marks it rather than the offerer record. The offerer record's candidates stay buffered for good. |
| `Scenarios.StaleTeardown` | main.js:118 | The filter goes by id. A terminal event from a dropped connection removes a newer record for the same id whose connection never ended. |

## Where the code departs from the behaviour one would expect

The model follows the code in each case:

- A second join for a peer that already has a record should reject the join or replace the old session. `createPeer` appends a second record for the same id (`Registry.AppendKeepsFirstMatch`).
- The candidate buffer should be sent once and then be empty. The answer handler never clears it, so a second `sdp-answer` sends it again (`CandidateBuffer.SecondAnswerResends`).
- An answer should only be applied to an offerer record that is still waiting for one. The handler marks the first record with that id, even an answerer record (`Scenarios.AnswerFindsFirstRecord`).
- A connection that reaches `failed` should be torn down like a closed one. The code removes a peer only on `closed` or `disconnected` (`App.Terminal`).
- When both sides offer at once (glare), one offer should win and the other be dropped, and a new offer should wait until the current negotiation is done. The code does neither (`Scenarios.Glare`).

## Left out

- Socket.io connection setup and the `join-room` emit (main.js:43-44, 77): transport work. Outbound messages are appends to a log.
- `getUserMedia`, local video binding and track forwarding in `setTracks` (main.js:36-40, 93-105): browser media API with no bookkeeping.
- The DOM: `createVideo` and the video removal in hang-up (main.js:116-117, 168-175). In the code, a missing video element makes the hang-up handler throw before the filter runs.
- App.Client.OnConnectionStateChange: assumes the peer's video element exists. The real handler throws before filtering when it does not, for example for a record whose remote offer was rejected, since no video was created for it.
- `RTCPeerConnection` internals: `createOffer`, `createAnswer`, `setLocalDescription`, `setRemoteDescription`, `addIceCandidate` (main.js:63, 74, 139-140, 158-161). SDP and candidates are opaque. The model records which calls are made, not what the browser does with them, so queuing of early remote candidates is not modelled.
- App.Client.CreateRTCOffer: assumes `createOffer` and `setLocalDescription` succeed. The offer is a parameter.
- App.Client.HandleNewIceCandidate: does not model the exception `new RTCIceCandidate` can raise for a malformed candidate.
- The `await` points in `createRTCOffer` and `createRTCAnswer`: each handler is one atomic step, so no other event interleaves inside it.
- Static configuration `RTCConfig` and `peerConfig` (main.js:15-31).
