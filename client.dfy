// The module state of main.js (the registry `pc` and the socket) and the
// handlers that change it. Each socket handler and each connection callback
// is one atomic step; the socket is represented by the log of what is emitted
// on it.
module App {
  import opened Signaling
  import opened CandidateBuffer
  import opened Registry

  /** The states for which the hang-up handler tears a peer down; `failed`
      is not one of them. */
  predicate Terminal(state: ConnectionState)
    ensures !Terminal(state) <==> state in {New, Connecting, Connected, Failed}
  {
    state == Closed || state == Disconnected
  }

  class Client {
    // `let pc = []` (main.js:13)
    var pc: seq<Peer>
    // Everything emitted on the socket, oldest first.
    var outbox: seq<Outbound>
    // Every record ever created: a record's closures keep it alive after the
    // hang-up filter has dropped it from `pc`.
    ghost var peers: set<Peer>
    // The record each entry of `outbox` was emitted for.
    ghost var sender: seq<Peer>

    /** The registry holds records this client created; each message is
        tagged with the id of the record it was emitted for; an offerer
        record's offer is in the log, and none of its candidates is emitted
        before its first answer was handled, which itself comes after the
        offer. */
    ghost predicate Valid()
      reads this, peers
    {
      && (forall p :: p in pc ==> p in peers)
      && |sender| == |outbox|
      && (forall i :: 0 <= i < |outbox| ==> sender[i] in peers && sender[i].id == outbox[i].peerId)
      && (forall p :: p in peers && p.onIceCandidate == BufferUntilAnswered ==>
            && p.createdAt < |outbox|
            && outbox[p.createdAt].Offer?
            && sender[p.createdAt] == p
            && (p.isCallAnswered ==> p.createdAt < p.answeredAt <= |outbox|))
      && (forall i :: 0 <= i < |outbox| && outbox[i].IceCandidate? && sender[i].onIceCandidate == BufferUntilAnswered ==>
            sender[i].isCallAnswered && sender[i].answeredAt <= i)
    }

    constructor ()
      ensures Valid()
      ensures pc == [] && outbox == [] && peers == {}
    {
      pc := [];
      outbox := [];
      peers := {};
      sender := [];
    }

    /** `socket.emit(...)` on behalf of record `from`. */
    method Emit(m: Outbound, ghost from: Peer)
      modifies this`outbox, this`sender
      ensures outbox == old(outbox) + [m] && sender == old(sender) + [from]
    {
      outbox := outbox + [m];
      sender := sender + [from];
    }

    /** createPeer: push one new record with this id, not answered and with an
        empty buffer, behind the existing ones; no check for a duplicate. */
    method CreatePeer(peerId: PeerId) returns (p: Peer)
      requires Valid()
      modifies this`pc, this`peers
      ensures Valid() && fresh(p)
      ensures pc == old(pc) + [p] && peers == old(peers) + {p}
      ensures p.id == peerId && p.Candidates() == Fresh(Unset)
      ensures p.localDescription == None && p.remoteDescription == None && p.remoteCandidates == []
    {
      p := new Peer(peerId);
      pc := pc + [p];
      peers := peers + {p};
    }

    /** `new-peer-joined` (createRTCOffer): a record with the buffering
        closure, then the offer the browser produced, set locally and emitted.
        Returned is the record whose connection delivers later callbacks. */
    method CreateRTCOffer(peerId: PeerId, offer: Sdp) returns (p: Peer)
      requires Valid()
      modifies this
      ensures Valid() && fresh(p)
      ensures pc == old(pc) + [p] && peers == old(peers) + {p}
      ensures p.id == peerId && p.Candidates() == Fresh(BufferUntilAnswered)
      ensures p.localDescription == Some(offer) && p.remoteDescription == None && p.remoteCandidates == []
      ensures outbox == old(outbox) + [Offer(peerId, offer)]
    {
      p := CreatePeer(peerId);
      p.onIceCandidate := BufferUntilAnswered;
      p.localDescription := Some(offer);
      p.createdAt := |outbox|;
      Emit(Offer(peerId, offer), p);
    }

    /** `sdp-offer` (createRTCAnswer): a record with the sending closure, the
        remote offer handed to the connection, then the answer emitted.
        `answer` is None when the browser rejects the offer or fails to
        answer: the record stays registered and nothing is emitted. */
    method CreateRTCAnswer(peerId: PeerId, sdp: Sdp, answer: Option<Sdp>) returns (p: Peer)
      requires Valid()
      modifies this
      ensures Valid() && fresh(p)
      ensures pc == old(pc) + [p] && peers == old(peers) + {p}
      ensures p.id == peerId && p.Candidates() == Fresh(SendImmediately)
      ensures p.remoteDescription == Some(sdp) && p.localDescription == answer && p.remoteCandidates == []
      ensures outbox == old(outbox) + (if answer.Some? then [Answer(peerId, answer.value)] else [])
    {
      p := CreatePeer(peerId);
      p.onIceCandidate := SendImmediately;
      p.remoteDescription := Some(sdp);
      p.createdAt := |outbox|;
      if answer.Some? {
        p.localDescription := answer;
        Emit(Answer(peerId, answer.value), p);
      }
    }

    /** The `onicecandidate` closure of record `p`, for `e.candidate`. It acts
        on the captured record whether or not that record is still in `pc`. */
    method OnIceCandidate(p: Peer, e: Option<Candidate>)
      requires Valid() && p in peers
      modifies this`outbox, this`sender, p`iceCandidates
      ensures Valid()
      ensures p.Candidates() == OnLocalCandidate(old(p.Candidates()), e).state
      ensures outbox == old(outbox) + IceMessages(p.id, OnLocalCandidate(old(p.Candidates()), e).sent)
    {
      assert IceMessages(p.id, []) == [];
      if e.Some? {
        var c := e.value;
        assert IceMessages(p.id, [c]) == [IceCandidate(p.id, c)];
        if p.onIceCandidate == BufferUntilAnswered {
          if !p.isCallAnswered {
            p.iceCandidates := p.iceCandidates + [c];
          } else {
            Emit(IceCandidate(p.id, c), p);
          }
        } else if p.onIceCandidate == SendImmediately {
          Emit(IceCandidate(p.id, c), p);
        }
      }
    }

    /** The `forEach` of the answer handler: emit `cs` in order as
        `ice-candidate`, tagged with `p`'s id. Allowed for an offerer record
        only once it is answered. */
    method EmitCandidates(p: Peer, cs: seq<Candidate>)
      requires Valid() && p in peers
      requires p.onIceCandidate == BufferUntilAnswered ==> p.isCallAnswered && p.answeredAt <= |outbox|
      modifies this`outbox, this`sender
      ensures Valid()
      ensures outbox == old(outbox) + IceMessages(p.id, cs)
    {
      var k := 0;
      while k < |cs|
        invariant 0 <= k <= |cs|
        invariant Valid()
        invariant outbox == old(outbox) + IceMessages(p.id, cs[..k])
      {
        Emit(IceCandidate(p.id, cs[k]), p);
        IceMessagesConcat(p.id, cs[..k], [cs[k]]);
        assert cs[..k + 1] == cs[..k] + [cs[k]];
        k := k + 1;
      }
      assert cs[..k] == cs;
    }

    /** `sdp-answer`: look the id up; with no record the handler faults
        (`ok` false) and nothing changes. Otherwise, on the first record with
        that id: hand it the remote description, set `isCallAnswered`, and
        emit every buffered candidate in buffer order. The buffer is kept. */
    method HandleSdpAnswer(peerId: PeerId, sdp: Sdp) returns (ok: bool)
      requires Valid()
      modifies this`outbox, this`sender
      modifies Found(pc, peerId)`remoteDescription, Found(pc, peerId)`isCallAnswered, Found(pc, peerId)`answeredAt
      ensures Valid()
      ensures ok <==> FindIndex(pc, peerId).Some?
      ensures !ok ==> outbox == old(outbox)
      ensures ok ==>
        var p := pc[FindIndex(pc, peerId).value];
        && p.Candidates() == OnAnswer(old(p.Candidates())).state
        && p.remoteDescription == Some(sdp)
        && p.localDescription == old(p.localDescription)
        && p.remoteCandidates == old(p.remoteCandidates)
        && outbox == old(outbox) + IceMessages(peerId, OnAnswer(old(p.Candidates())).sent)
    {
      var found := FindIndex(pc, peerId);
      if found.None? {
        return false;
      }
      var p := pc[found.value];
      assert p in Found(pc, peerId);
      ghost var before := p.Candidates();
      p.remoteDescription := Some(sdp);
      if !p.isCallAnswered {
        p.answeredAt := |outbox|;
      }
      p.isCallAnswered := true;
      assert p.Candidates() == OnAnswer(before).state;
      EmitCandidates(p, p.iceCandidates);
      return true;
    }

    /** `new-ice-candidate`: look the id up; with no record the handler faults
        (`ok` false) and nothing changes. Otherwise the candidate is handed to
        the first record's connection. */
    method HandleNewIceCandidate(peerId: PeerId, c: Candidate) returns (ok: bool)
      requires Valid()
      modifies Found(pc, peerId)`remoteCandidates
      ensures Valid()
      ensures ok <==> FindIndex(pc, peerId).Some?
      ensures ok ==>
        var p := pc[FindIndex(pc, peerId).value];
        p.remoteCandidates == old(p.remoteCandidates) + [c]
    {
      var found := FindIndex(pc, peerId);
      if found.None? {
        return false;
      }
      var p := pc[found.value];
      p.remoteCandidates := p.remoteCandidates + [c];
      return true;
    }

    /** The connection-state callback installed by handleHangup on record
        `p`: `closed` or `disconnected` filters every record with `p`'s id
        out of the registry; any other state, `connected` included, does
        nothing. */
    method OnConnectionStateChange(p: Peer, state: ConnectionState)
      requires Valid() && p in peers
      modifies this`pc
      ensures Valid()
      ensures pc == if Terminal(state) then Without(old(pc), p.id) else old(pc)
    {
      if state == Closed || state == Disconnected {
        pc := Without(pc, p.id);
      } else if state == Connected {
      }
    }
  }

  /** Offerer side, read off the log: an `ice-candidate` emitted for an
      offerer record comes after that record's `offer` for the same id, and no
      earlier than the point where its first `sdp-answer` was handled. */
  lemma OffererCandidateOrder(c: Client, i: nat)
    requires c.Valid() && i < |c.outbox|
    requires c.outbox[i].IceCandidate? && c.sender[i].onIceCandidate == BufferUntilAnswered
    ensures var p := c.sender[i];
      && p.isCallAnswered
      && p.createdAt < p.answeredAt <= i
      && c.outbox[p.createdAt].Offer?
      && c.outbox[p.createdAt].peerId == c.outbox[i].peerId
  {
  }
}
