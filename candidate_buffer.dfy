// The candidate logic of one peer record in main.js: the `onicecandidate`
// closure installed by createRTCOffer (buffer until answered, main.js:129-137)
// or by createRTCAnswer (send at once, main.js:152-156), and the part of the
// `sdp-answer` handler that touches the record (main.js:65-69).
//
// A record's life is a sequence of events (locally gathered candidates and
// handled answers); Run folds the steps over it and the lemmas below say what
// reaches the socket, and in which order.
module CandidateBuffer {
  import opened Signaling

  /** Which `onicecandidate` closure a record's connection carries: none
      (createPeer alone installs nothing), the offerer's or the answerer's. */
  datatype IceHandler = Unset | BufferUntilAnswered | SendImmediately

  /** The fields of a peer record that the candidate logic reads and writes:
      the installed closure, `isCallAnswered` and `iceCandidates`. */
  datatype CandidateState = CandidateState(handler: IceHandler, answered: bool, buffer: seq<Candidate>)

  /** One step's outcome: the record's new state and the candidates emitted as
      `ice-candidate`, in emission order. */
  datatype Step = Step(state: CandidateState, sent: seq<Candidate>)

  /** A record as createPeer leaves it (`isCallAnswered = false`,
      `iceCandidates = []`) once closure `h` is installed. */
  function Fresh(h: IceHandler): CandidateState {
    CandidateState(h, false, [])
  }

  /** The closure's reaction to `e.candidate`; None is the null candidate that
      ends gathering. Every non-null candidate that reaches an installed
      closure is either appended to the buffer or sent, never both and never
      dropped, and nothing else is; an offerer record sends nothing before it is answered; an
      answerer record never touches its buffer. */
  function OnLocalCandidate(s: CandidateState, e: Option<Candidate>): (r: Step)
    ensures r.state.handler == s.handler && r.state.answered == s.answered
    ensures |s.buffer| <= |r.state.buffer| && r.state.buffer[..|s.buffer|] == s.buffer
    ensures r.state.buffer + r.sent == s.buffer + (if e.Some? && s.handler != Unset then [e.value] else [])
    ensures r.sent != [] ==> s.answered || s.handler == SendImmediately
    ensures s.handler == SendImmediately ==> r.state == s
  {
    match e
    case None => Step(s, [])
    case Some(c) =>
      match s.handler
      case Unset => Step(s, [])
      case SendImmediately => Step(s, [c])
      case BufferUntilAnswered =>
        if !s.answered then Step(s.(buffer := s.buffer + [c]), [])
        else Step(s, [c])
  }

  /** The `sdp-answer` handler on the record it found: set `isCallAnswered`
      and emit the whole buffer in order. The buffer is not cleared. */
  function OnAnswer(s: CandidateState): (r: Step)
    ensures r.state.answered && r.state.handler == s.handler
    ensures r.state.buffer == s.buffer && r.sent == s.buffer
  {
    Step(s.(answered := true), s.buffer)
  }

  datatype Event = Local(e: Option<Candidate>) | AnswerHandled

  function Apply(s: CandidateState, ev: Event): Step {
    match ev
    case Local(e) => OnLocalCandidate(s, e)
    case AnswerHandled => OnAnswer(s)
  }

  /** The record's state after `evs`, and everything emitted for it, in order. */
  function Run(s: CandidateState, evs: seq<Event>): Step
    decreases |evs|
  {
    if evs == [] then Step(s, [])
    else
      var first := Apply(s, evs[0]);
      var rest := Run(first.state, evs[1..]);
      Step(rest.state, first.sent + rest.sent)
  }

  /** The non-null candidates gathered in `evs`, in generation order. */
  function Gathered(evs: seq<Event>): seq<Candidate>
    decreases |evs|
  {
    if evs == [] then [] else Collected(evs[0]) + Gathered(evs[1..])
  }

  /** The candidate an event carries, if it is a non-null local one. */
  function Collected(ev: Event): seq<Candidate> {
    if ev.Local? && ev.e.Some? then [ev.e.value] else []
  }

  /** How many `sdp-answer` messages were handled for the record in `evs`. */
  function AnswerCount(evs: seq<Event>): nat
    decreases |evs|
  {
    if evs == [] then 0
    else (if evs[0].AnswerHandled? then 1 else 0) + AnswerCount(evs[1..])
  }

  lemma {:induction false} GatheredConcat(a: seq<Event>, b: seq<Event>)
    ensures Gathered(a + b) == Gathered(a) + Gathered(b)
    decreases |a|
  {
    if a == [] {
      assert a + b == b;
    } else {
      assert (a + b)[0] == a[0];
      assert (a + b)[1..] == a[1..] + b;
      GatheredConcat(a[1..], b);
    }
  }

  /** Running two stretches of events one after the other is running their
      concatenation: emissions of the first come first. */
  lemma {:induction false} RunConcat(s: CandidateState, a: seq<Event>, b: seq<Event>)
    ensures Run(s, a + b) == Step(Run(Run(s, a).state, b).state, Run(s, a).sent + Run(Run(s, a).state, b).sent)
    decreases |a|
  {
    if a == [] {
      assert a + b == b;
    } else {
      assert (a + b)[0] == a[0];
      assert (a + b)[1..] == a[1..] + b;
      RunConcat(Apply(s, a[0]).state, a[1..], b);
    }
  }

  /** One pre-answer step of an offerer record. */
  lemma BufferStep(s: CandidateState, ev: Event)
    requires s.handler == BufferUntilAnswered && !s.answered && !ev.AnswerHandled?
    ensures Apply(s, ev) == Step(s.(buffer := s.buffer + Collected(ev)), [])
  {
  }

  /** Offerer side before the answer: every non-null candidate is appended to
      the end of the buffer in generation order, and nothing is emitted. */
  lemma {:induction false} BufferedUntilAnswered(s: CandidateState, evs: seq<Event>)
    requires s.handler == BufferUntilAnswered && !s.answered
    requires AnswerCount(evs) == 0
    ensures Run(s, evs) == Step(s.(buffer := s.buffer + Gathered(evs)), [])
    decreases |evs|
  {
    if evs != [] {
      var head := Collected(evs[0]);
      var s1 := s.(buffer := s.buffer + head);
      BufferStep(s, evs[0]);
      assert AnswerCount(evs[1..]) == 0;
      BufferedUntilAnswered(s1, evs[1..]);
      var tail := Run(s1, evs[1..]);
      assert Run(s, evs) == Step(tail.state, [] + tail.sent);
      assert Gathered(evs) == head + Gathered(evs[1..]);
      assert (s.buffer + head) + Gathered(evs[1..]) == s.buffer + (head + Gathered(evs[1..]));
    }
  }

  /** Offerer side once answered: each non-null candidate is emitted at once,
      in generation order, and the buffer stays as it is. */
  lemma {:induction false} SentOnceAnswered(s: CandidateState, evs: seq<Event>)
    requires s.handler == BufferUntilAnswered && s.answered
    requires AnswerCount(evs) == 0
    ensures Run(s, evs) == Step(s, Gathered(evs))
    decreases |evs|
  {
    if evs != [] {
      SentOnceAnswered(Apply(s, evs[0]).state, evs[1..]);
    }
  }

  /** Answerer side: nothing is ever buffered, and the candidates are emitted
      exactly as gathered, whatever `sdp-answer` messages also arrive. */
  lemma {:induction false} AnswererNeverBuffers(s: CandidateState, evs: seq<Event>)
    requires s.handler == SendImmediately && s.buffer == []
    ensures Run(s, evs).state.buffer == []
    ensures Run(s, evs).sent == Gathered(evs)
    decreases |evs|
  {
    if evs != [] {
      AnswererNeverBuffers(Apply(s, evs[0]).state, evs[1..]);
    }
  }

  /** An offerer record answered once: every candidate it gathers, before or
      after the answer, is emitted exactly once and in generation order; the
      ones gathered before the answer stay in the buffer. */
  lemma EveryCandidateSentOnce(pre: seq<Event>, post: seq<Event>)
    requires AnswerCount(pre) == 0 && AnswerCount(post) == 0
    ensures Run(Fresh(BufferUntilAnswered), pre + [AnswerHandled] + post).sent
         == Gathered(pre + [AnswerHandled] + post)
    ensures Run(Fresh(BufferUntilAnswered), pre + [AnswerHandled] + post).state
         == CandidateState(BufferUntilAnswered, true, Gathered(pre))
  {
    var s0 := Fresh(BufferUntilAnswered);
    BufferedUntilAnswered(s0, pre);
    var s1 := Run(s0, pre).state;
    assert s1 == CandidateState(BufferUntilAnswered, false, Gathered(pre));
    var s2 := OnAnswer(s1).state;
    assert Run(s1, [AnswerHandled]) == Step(s2, Gathered(pre));
    RunConcat(s0, pre, [AnswerHandled]);
    SentOnceAnswered(s2, post);
    RunConcat(s0, pre + [AnswerHandled], post);
    GatheredConcat(pre, [AnswerHandled]);
    GatheredConcat(pre + [AnswerHandled], post);
  }

  /** Because the buffer is kept, a second `sdp-answer` for the same record
      emits every candidate gathered before the first one again. */
  lemma SecondAnswerResends(pre: seq<Event>, mid: seq<Event>)
    requires AnswerCount(pre) == 0 && AnswerCount(mid) == 0
    ensures Run(Fresh(BufferUntilAnswered), pre + [AnswerHandled] + mid + [AnswerHandled]).sent
         == Gathered(pre) + Gathered(mid) + Gathered(pre)
  {
    var s0 := Fresh(BufferUntilAnswered);
    EveryCandidateSentOnce(pre, mid);
    var first := pre + [AnswerHandled] + mid;
    var s3 := Run(s0, first).state;
    assert Run(s3, [AnswerHandled]).sent == Gathered(pre);
    RunConcat(s0, first, [AnswerHandled]);
    GatheredConcat(pre, [AnswerHandled]);
    GatheredConcat(pre + [AnswerHandled], mid);
    assert Gathered([AnswerHandled]) == [];
  }
}
