// Event sequences from a fresh client: socket events and connection callbacks,
// with what the socket log and the registry hold afterwards. Each is proved
// from the contracts of App.Client alone.
module Scenarios {
  import opened Signaling
  import opened CandidateBuffer
  import opened Registry
  import opened App

  /** Peer x joins; two candidates are gathered before x answers. Only the
      offer is emitted until the answer is handled; then the two candidates go
      out in generation order and stay in the buffer. */
  method OffererExchange(x: PeerId, offer: Sdp, answer: Sdp, c1: Candidate, c2: Candidate)
    returns (beforeAnswer: seq<Outbound>, log: seq<Outbound>, buffered: seq<Candidate>)
    ensures beforeAnswer == [Offer(x, offer)]
    ensures log == [Offer(x, offer), IceCandidate(x, c1), IceCandidate(x, c2)]
    ensures buffered == [c1, c2]
  {
    var client := new Client();
    var p := client.CreateRTCOffer(x, offer);
    client.OnIceCandidate(p, Some(c1));
    client.OnIceCandidate(p, Some(c2));
    assert p.Candidates() == CandidateState(BufferUntilAnswered, false, [c1, c2]);
    beforeAnswer := client.outbox;
    assert FindIndex(client.pc, x) == Some(0);
    var ok := client.HandleSdpAnswer(x, answer);
    log := client.outbox;
    buffered := p.iceCandidates;
  }

  /** Once x's answer is handled, a new candidate goes out at once and the
      null end-of-gathering candidate does nothing. */
  method CandidateAfterAnswer(x: PeerId, offer: Sdp, answer: Sdp, c: Candidate)
    returns (log: seq<Outbound>, buffered: seq<Candidate>)
    ensures log == [Offer(x, offer), IceCandidate(x, c)]
    ensures buffered == []
  {
    var client := new Client();
    var p := client.CreateRTCOffer(x, offer);
    assert FindIndex(client.pc, x) == Some(0);
    var ok := client.HandleSdpAnswer(x, answer);
    assert client.outbox == [Offer(x, offer)];
    client.OnIceCandidate(p, Some(c));
    client.OnIceCandidate(p, None);
    log := client.outbox;
    buffered := p.iceCandidates;
  }

  /** An offer from y arrives with no earlier join for y: an answerer record
      is created, the answer is emitted, and candidates go out as gathered. */
  method AnswerWithoutJoin(y: PeerId, remoteOffer: Sdp, answer: Sdp, c: Candidate)
    returns (log: seq<Outbound>, ids: seq<PeerId>)
    ensures log == [Answer(y, answer), IceCandidate(y, c)]
    ensures ids == [y]
  {
    var client := new Client();
    var p := client.CreateRTCAnswer(y, remoteOffer, Some(answer));
    client.OnIceCandidate(p, Some(c));
    log := client.outbox;
    ids := [client.pc[0].id];
  }

  /** An offer the browser rejects: the record stays registered and nothing
      is emitted. With no local description the connection gathers no
      candidates, so the record's closure never fires. */
  method RejectedOffer(y: PeerId, remoteOffer: Sdp)
    returns (log: seq<Outbound>, registered: nat, local: Option<Sdp>)
    ensures log == [] && registered == 1 && local == None
  {
    var client := new Client();
    var p := client.CreateRTCAnswer(y, remoteOffer, None);
    log := client.outbox;
    registered := |client.pc|;
    local := p.localDescription;
  }

  /** `connected` keeps the record; `disconnected` removes it; a second
      terminal event changes nothing more. */
  method Teardown(x: PeerId, offer: Sdp)
    returns (afterConnected: nat, afterDisconnected: nat, afterClosed: nat)
    ensures afterConnected == 1 && afterDisconnected == 0 && afterClosed == 0
  {
    var client := new Client();
    var p := client.CreateRTCOffer(x, offer);
    client.OnConnectionStateChange(p, Connected);
    afterConnected := |client.pc|;
    client.OnConnectionStateChange(p, Disconnected);
    afterDisconnected := |client.pc|;
    client.OnConnectionStateChange(p, Closed);
    afterClosed := |client.pc|;
  }

  /** Messages for an id with no record fault: nothing is emitted and the
      registry is untouched. */
  method UnknownPeer(x: PeerId, y: PeerId, offer: Sdp, answer: Sdp, c: Candidate)
    returns (answerOk: bool, candidateOk: bool, log: seq<Outbound>)
    requires x != y
    ensures !answerOk && !candidateOk
    ensures log == [Offer(x, offer)]
  {
    var client := new Client();
    var p := client.CreateRTCOffer(x, offer);
    answerOk := client.HandleSdpAnswer(y, answer);
    candidateOk := client.HandleNewIceCandidate(y, c);
    log := client.outbox;
  }

  /** A second `sdp-answer` for the same record emits the kept buffer again. */
  method DuplicateAnswer(x: PeerId, offer: Sdp, answer: Sdp, c: Candidate)
    returns (log: seq<Outbound>)
    ensures log == [Offer(x, offer), IceCandidate(x, c), IceCandidate(x, c)]
  {
    var client := new Client();
    var p := client.CreateRTCOffer(x, offer);
    client.OnIceCandidate(p, Some(c));
    assert FindIndex(client.pc, x) == Some(0);
    var ok := client.HandleSdpAnswer(x, answer);
    ok := client.HandleSdpAnswer(x, answer);
    log := client.outbox;
  }

  /** Glare: x joins and x's own offer arrives too. Two records carry id x;
      the answerer one sends its candidate at once, so an `ice-candidate`
      for x is emitted before any answer from x was handled. */
  method Glare(x: PeerId, offer: Sdp, remoteOffer: Sdp, answer: Sdp, c: Candidate)
    returns (log: seq<Outbound>, records: nat)
    ensures log == [Offer(x, offer), Answer(x, answer), IceCandidate(x, c)]
    ensures records == 2
  {
    var client := new Client();
    var offerer := client.CreateRTCOffer(x, offer);
    var answerer := client.CreateRTCAnswer(x, remoteOffer, Some(answer));
    client.OnIceCandidate(offerer, Some(c));
    client.OnIceCandidate(answerer, Some(c));
    log := client.outbox;
    records := |client.pc|;
  }

  /** Glare the other way round: the answerer record comes first, so the
      answer from x is applied to it and the offerer record's candidates
      stay buffered for good. */
  method AnswerFindsFirstRecord(x: PeerId, remoteOffer: Sdp, answer: Sdp, offer: Sdp, remoteAnswer: Sdp, c: Candidate)
    returns (log: seq<Outbound>, stuck: seq<Candidate>, offererAnswered: bool)
    ensures log == [Answer(x, answer), Offer(x, offer)]
    ensures stuck == [c] && !offererAnswered
  {
    var client := new Client();
    var answerer := client.CreateRTCAnswer(x, remoteOffer, Some(answer));
    var offerer := client.CreateRTCOffer(x, offer);
    client.OnIceCandidate(offerer, Some(c));
    assert FindIndex(client.pc, x) == Some(0);
    var ok := client.HandleSdpAnswer(x, remoteAnswer);
    log := client.outbox;
    stuck := offerer.iceCandidates;
    offererAnswered := offerer.isCallAnswered;
  }

  /** The hang-up filter goes by id: x drops and rejoins, then the old
      connection reports `closed`, and the new record is removed although its
      own connection never ended. */
  method StaleTeardown(x: PeerId, offer1: Sdp, offer2: Sdp)
    returns (registered: nat)
    ensures registered == 0
  {
    var client := new Client();
    var first := client.CreateRTCOffer(x, offer1);
    client.OnConnectionStateChange(first, Disconnected);
    var second := client.CreateRTCOffer(x, offer2);
    client.OnConnectionStateChange(first, Closed);
    registered := |client.pc|;
  }
}
