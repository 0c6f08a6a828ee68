// The peer registry of main.js: the module-level array `pc` of peer records
// (main.js:13), the record createPeer builds (main.js:80-91), the exact-id
// lookup `pc.find` (main.js:62, 73) and the hang-up filter (main.js:118).
module Registry {
  import opened Signaling
  import opened CandidateBuffer

  /** One peer record. The connection and stream handles are opaque in the
      source; the connection is represented by the calls the client makes on
      it (the closure it installs, the descriptions and remote candidates it
      hands over). */
  class Peer {
    const id: PeerId
    var isCallAnswered: bool
    var iceCandidates: seq<Candidate>
    var onIceCandidate: IceHandler
    var localDescription: Option<Sdp>
    var remoteDescription: Option<Sdp>
    var remoteCandidates: seq<Candidate>
    // Position in the client's outbound log of this record's offer or answer.
    ghost var createdAt: nat
    // Length of the client's outbound log when the first `sdp-answer` for
    // this record was handled.
    ghost var answeredAt: nat

    /** The object literal of createPeer: `isCallAnswered: false`,
        `iceCandidates: []`, a new connection with no handler installed. */
    constructor (peerId: PeerId)
      ensures id == peerId && !isCallAnswered && iceCandidates == [] && onIceCandidate == Unset
      ensures localDescription == None && remoteDescription == None && remoteCandidates == []
    {
      id := peerId;
      isCallAnswered := false;
      iceCandidates := [];
      onIceCandidate := Unset;
      localDescription := None;
      remoteDescription := None;
      remoteCandidates := [];
    }

    function Candidates(): CandidateState
      reads this
    {
      CandidateState(onIceCandidate, isCallAnswered, iceCandidates)
    }
  }

  /** `pc.find(peer => peer.id === id)`, as a position: the first record whose
      id equals `id` exactly, or None when there is none (find yields
      undefined). */
  function FindIndex(pc: seq<Peer>, id: PeerId): (r: Option<nat>)
    ensures r.Some? ==> r.value < |pc| && pc[r.value].id == id
    ensures r.Some? ==> forall j :: 0 <= j < r.value ==> pc[j].id != id
    ensures r.None? ==> forall j :: 0 <= j < |pc| ==> pc[j].id != id
    decreases |pc|
  {
    if pc == [] then None
    else if pc[0].id == id then Some(0)
    else match FindIndex(pc[1..], id)
      case None => None
      case Some(k) => Some(k + 1)
  }

  /** The record `pc.find` returns, if any: a registered record with that id
      that no other record with the id precedes. */
  function Lookup(pc: seq<Peer>, id: PeerId): (r: Option<Peer>)
    ensures r.None? <==> forall j :: 0 <= j < |pc| ==> pc[j].id != id
    ensures r.Some? ==> r.value in pc && r.value.id == id
    ensures r.Some? ==> forall j :: 0 <= j < |pc| && pc[j].id == id ==> r.value in pc[..j + 1]
  {
    match FindIndex(pc, id)
    case None => None
    case Some(i) =>
      assert forall j :: 0 <= j < |pc| && pc[j].id == id ==> pc[i] == pc[..j + 1][i];
      Some(pc[i])
  }

  /** The objects a handler that looks `id` up may change. */
  function Found(pc: seq<Peer>, id: PeerId): set<Peer> {
    match FindIndex(pc, id)
    case None => {}
    case Some(i) => {pc[i]}
  }

  /** `pc.filter(p => p.id !== id)`: every record with that id goes, and only
      those. */
  function Without(pc: seq<Peer>, id: PeerId): (r: seq<Peer>)
    ensures forall p :: p in r ==> p in pc && p.id != id
    ensures forall p :: p in pc && p.id != id ==> p in r
    ensures |r| <= |pc|
    decreases |pc|
  {
    if pc == [] then []
    else (if pc[0].id == id then [] else [pc[0]]) + Without(pc[1..], id)
  }

  /** How many records carry `id`. */
  function Count(pc: seq<Peer>, id: PeerId): nat
    decreases |pc|
  {
    if pc == [] then 0
    else (if pc[0].id == id then 1 else 0) + Count(pc[1..], id)
  }

  /** `find` tries the first record, then the rest. */
  lemma LookupStep(pc: seq<Peer>, id: PeerId)
    requires pc != []
    ensures Lookup(pc, id) == if pc[0].id == id then Some(pc[0]) else Lookup(pc[1..], id)
  {
  }

  /** createPeer pushes without looking: a record for an id already present
      becomes a second entry, and the lookup keeps finding the older one. */
  lemma {:induction false} AppendKeepsFirstMatch(pc: seq<Peer>, p: Peer, id: PeerId)
    ensures FindIndex(pc + [p], id)
         == if FindIndex(pc, id).Some? then FindIndex(pc, id)
            else if p.id == id then Some(|pc|) else None
    ensures Count(pc + [p], id) == Count(pc, id) + (if p.id == id then 1 else 0)
    decreases |pc|
  {
    if pc == [] {
      assert pc + [p] == [p];
    } else {
      assert (pc + [p])[0] == pc[0];
      assert (pc + [p])[1..] == pc[1..] + [p];
      AppendKeepsFirstMatch(pc[1..], p, id);
    }
  }

  /** The filter keeps the surviving records in their original order: it
      works piecewise on a split of the registry. */
  lemma {:induction false} WithoutConcat(a: seq<Peer>, b: seq<Peer>, id: PeerId)
    ensures Without(a + b, id) == Without(a, id) + Without(b, id)
    decreases |a|
  {
    if a == [] {
      assert a + b == b;
    } else {
      assert (a + b)[0] == a[0];
      assert (a + b)[1..] == a[1..] + b;
      WithoutConcat(a[1..], b, id);
    }
  }

  /** A registry with no record for `id` is left exactly as it was. */
  lemma {:induction false} WithoutAbsent(pc: seq<Peer>, id: PeerId)
    requires forall j :: 0 <= j < |pc| ==> pc[j].id != id
    ensures Without(pc, id) == pc
    decreases |pc|
  {
    if pc != [] {
      assert pc[0].id != id;
      WithoutAbsent(pc[1..], id);
      assert [pc[0]] + pc[1..] == pc;
    }
  }

  /** Hanging up twice for the same id gives the registry hanging up once
      gives. */
  lemma WithoutIdempotent(pc: seq<Peer>, id: PeerId)
    ensures Without(Without(pc, id), id) == Without(pc, id)
  {
    var r := Without(pc, id);
    forall j | 0 <= j < |r| ensures r[j].id != id {
      assert r[j] in r;
    }
    WithoutAbsent(r, id);
  }

  /** After the filter no record has `id`, and every other id has as many
      records as before and is looked up to the same record as before. */
  lemma {:induction false} WithoutLookup(pc: seq<Peer>, id: PeerId, other: PeerId)
    ensures Count(Without(pc, id), id) == 0
    ensures other != id ==> Count(Without(pc, id), other) == Count(pc, other)
    ensures other != id ==> Lookup(Without(pc, id), other) == Lookup(pc, other)
    decreases |pc|
  {
    if pc != [] {
      WithoutLookup(pc[1..], id, other);
      var rest := Without(pc[1..], id);
      if pc[0].id != id {
        var kept := [pc[0]] + rest;
        assert Without(pc, id) == kept;
        assert kept[0] == pc[0] && kept[1..] == rest;
        LookupStep(pc, other);
        LookupStep(kept, other);
      } else {
        assert Without(pc, id) == rest;
        LookupStep(pc, other);
      }
    }
  }
}
