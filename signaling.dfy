// Values exchanged over the signaling socket by the browser client in main.js.
// Session descriptions and ICE candidates are produced and consumed by the
// browser's RTCPeerConnection; the client only stores and forwards them, so
// they are opaque here.
module Signaling {

  datatype Option<+T> = None | Some(value: T)

  /** A remote participant's identifier, assigned by the signaling server and
      compared with `===`, so exact string equality. */
  type PeerId = string

  /** An SDP offer or answer, as handed out by RTCPeerConnection. */
  datatype Sdp = Sdp(blob: string)

  /** A local or remote ICE candidate. */
  datatype Candidate = Candidate(blob: string)

  /** What the client emits on the socket (`join-room` is not modelled). */
  datatype Outbound =
    | Offer(peerId: PeerId, description: Sdp)
    | Answer(peerId: PeerId, description: Sdp)
    | IceCandidate(peerId: PeerId, candidate: Candidate)

  /** The values of RTCPeerConnection.connectionState. */
  datatype ConnectionState = New | Connecting | Connected | Disconnected | Closed | Failed

  /** The `ice-candidate` emits for `cs`, one per candidate, in order, each
      tagged with `id`. */
  function IceMessages(id: PeerId, cs: seq<Candidate>): seq<Outbound> {
    seq(|cs|, i requires 0 <= i < |cs| => IceCandidate(id, cs[i]))
  }

  /** Emitting two runs of candidates one after the other emits their
      concatenation. */
  lemma IceMessagesConcat(id: PeerId, a: seq<Candidate>, b: seq<Candidate>)
    ensures IceMessages(id, a + b) == IceMessages(id, a) + IceMessages(id, b)
  {
  }
}
