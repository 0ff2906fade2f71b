/** What goes in and comes out of each connection's byte streams, under every interleaving. */
module EnipStreams {
  import opened Bytes
  import opened EnipFrames
  import opened EnipObjects
  import opened EnipProtocol
  import opened EnipRuns
  import opened EnipAssemblies

  // ---------------------------------------------------------------- input

  /** The frames taken so far and the buffer are an intermediate state of one parse of all input. */
  predicate InputInvariant(k: Conn) {
    var ahead := ParseFrames(k.buffer);
    ParseFrames(k.received) == Parsed(k.taken + ahead.frames, ahead.rest)
  }

  lemma ReceiveKeepsInput(k: Conn, chunk: seq<Byte>)
    requires InputInvariant(k)
    ensures InputInvariant(k.(buffer := k.buffer + chunk, received := k.received + chunk))
  {
    ParseResumes(k.buffer, chunk);
    ParseResumes(k.received, chunk);
    hide ParseFrames;
    var later := ParseFrames(ParseFrames(k.buffer).rest + chunk);
    assert (k.taken + ParseFrames(k.buffer).frames) + later.frames
        == k.taken + (ParseFrames(k.buffer).frames + later.frames);
  }

  lemma TakeKeepsInput(k: Conn)
    requires InputInvariant(k) && Complete(k.buffer)
    ensures InputInvariant(Taken(k))
  {
  }

  // ---------------------------------------------------------------- output

  /** The frames that get a reply: all but an UnRegisterSession with zero options. */
  function AnswerDue(frames: seq<Frame>): seq<Frame> {
    if frames == [] then []
    else
      var n := |frames| - 1;
      AnswerDue(frames[..n]) + if IsUnregistration(frames[n]) then [] else [frames[n]]
  }

  /** How a reply answers its request. */
  predicate Answers(reply: Frame, request: Frame) {
    && reply.command == request.command
    && reply.context == request.context
    && reply.options == 0
    && (request.options != 0 || request.command !in {REGISTER_SESSION, LIST_SERVICES, LIST_IDENTITY, LIST_INTERFACES}
        ==> reply.session == request.session)
    && (request.options == 0 && request.command in {LIST_SERVICES, LIST_IDENTITY, LIST_INTERFACES}
        ==> reply.session == 0)
    && (IsRegistration(request) ==> reply.session != 0 && reply.payload == request.payload)
    && (request.options == 0 && request.command == REGISTER_SESSION && !IsRegistration(request)
        ==> reply.session == 0 && reply.payload == [])
  }

  ghost predicate AnswersAll(replies: seq<Frame>, requests: seq<Frame>) {
    |replies| == |requests| && forall i :: 0 <= i < |replies| ==> Answers(replies[i], requests[i])
  }

  /** The output is a whole number of frames, one for each request answered so far, in order. */
  ghost predicate OutputInvariant(k: Conn) {
    var sent, due := ParseFrames(k.output), AnswerDue(k.taken);
    && sent.rest == []
    && (match k.phase
        case Idle => AnswersAll(sent.frames, due)
        case Awaiting(f) =>
          |due| >= 1 && due[|due| - 1] == f && IsSendRr(f) && AnswersAll(sent.frames, due[..|due| - 1])
        case Failed => |due| >= 1 && AnswersAll(sent.frames, due[..|due| - 1])
        case Closed => AnswersAll(sent.frames, due) || (|due| >= 1 && AnswersAll(sent.frames, due[..|due| - 1])))
  }

  lemma NoFrameInNothing()
    ensures !Complete([])
  {
  }

  lemma SentFrame(output: seq<Byte>, reply: Frame, status: U32)
    requires Fits(reply) && ParseFrames(output).rest == []
    ensures ParseFrames(output + EncodeFrame(reply, status)) == Parsed(ParseFrames(output).frames + [reply], [])
  {
    hide Complete, FirstFrame, AfterFirst, EncodeFrame;
    var bytes := EncodeFrame(reply, status);
    ParseResumes(output, bytes);
    assert [] + bytes == bytes && bytes + [] == bytes;
    EncodedFirst(reply, status, []);
    NoFrameInNothing();
    assert ParseFrames(bytes) == Parsed([reply], []);
  }

  /** A reply as the server builds it: one whole frame that answers the request. */
  ghost predicate GoodReply(reply: Reply, request: Frame) {
    match reply
    case NoReply => IsUnregistration(request)
    case Raise => !IsUnregistration(request)
    case Send(bytes) =>
      !IsUnregistration(request)
      && exists g, status :: Fits(g) && bytes == EncodeFrame(g, status) && Answers(g, request)
  }

  lemma BuiltReply(request: Frame, session: nat, payload: seq<Byte>, status: U32)
    requires Fits(request) && !IsUnregistration(request)
    requires session < 0x1_0000_0000 && |payload| < 0x1_0000
             ==> Answers(Frame(request.command, session, request.context, 0, payload), request)
    ensures GoodReply(BuildReply(request.command, session, request.context, payload, status), request)
  {
  }

  lemma AdmitReplies(cfg: Config, shared: Shared, sessions: set<nat>, f: Frame)
    requires ValidConfig(cfg) && Fits(f) && shared.next >= 1
    ensures match Admit(cfg, shared, sessions, f)
            case Admitted => IsSendRr(f)
            case Settled(reply, _, _) => GoodReply(reply, f)
  {
    hide EncodeFrame, BuildReply, ListIdentityPayload, ListIdentityItem;
    if f.options != 0 {
      BuiltReply(f, f.session, [], INCORRECT_DATA);
    } else if f.command == REGISTER_SESSION {
      if RegistersSession(f.payload) {
        BuiltReply(f, shared.next, f.payload, ENCAP_SUCCESS);
      } else {
        BuiltReply(f, 0, [], INCORRECT_DATA);
      }
    } else if f.command == LIST_SERVICES {
      BuiltReply(f, 0, LIST_SERVICES_PAYLOAD, ENCAP_SUCCESS);
    } else if f.command == LIST_IDENTITY {
      if |cfg.identity.productName| < 0x100 {
        BuiltReply(f, 0, ListIdentityPayload(cfg), ENCAP_SUCCESS);
      }
    } else if f.command == LIST_INTERFACES {
      BuiltReply(f, 0, PackU16Le(0), ENCAP_SUCCESS);
    } else if f.command == SEND_RR_DATA {
      BuiltReply(f, f.session, [], INVALID_SESSION);
    } else if f.command != UNREGISTER_SESSION {
      BuiltReply(f, f.session, [], INVALID_COMMAND);
    }
  }

  /** The reply to a granted registration carries the next handle, if that fits. */
  lemma RegistrationReplies(cfg: Config, shared: Shared, sessions: set<nat>, f: Frame)
    requires ValidConfig(cfg) && Fits(f) && IsRegistration(f)
    ensures Admit(cfg, shared, sessions, f).Settled?
    ensures Admit(cfg, shared, sessions, f).reply
            == if shared.next >= 0x1_0000_0000 then Raise
               else Send(EncodeFrame(Frame(f.command, shared.next, f.context, 0, f.payload), ENCAP_SUCCESS))
  {
    hide EncodeFrame;
  }

  lemma CipReplies(cfg: Config, store: Store, f: Frame)
    requires Fits(f) && IsSendRr(f)
    ensures GoodReply(RunSendRr(cfg, store, f).reply, f)
    ensures RunSendRr(cfg, store, f).reply != NoReply
  {
  }

  lemma AnswerDueSnoc(frames: seq<Frame>, f: Frame)
    ensures AnswerDue(frames + [f]) == AnswerDue(frames) + if IsUnregistration(f) then [] else [f]
  {
  }

  /** Sending a good reply to the request at the end of what is due. */
  lemma SendAnswers(output: seq<Byte>, bytes: seq<Byte>, due: seq<Frame>, request: Frame)
    requires ParseFrames(output).rest == [] && AnswersAll(ParseFrames(output).frames, due)
    requires GoodReply(Send(bytes), request)
    ensures ParseFrames(output + bytes).rest == []
    ensures AnswersAll(ParseFrames(output + bytes).frames, due + [request])
  {
    hide ParseFrames, EncodeFrame, Answers;
    var g, status :| Fits(g) && bytes == EncodeFrame(g, status) && Answers(g, request);
    SentFrame(output, g, status);
  }

  /** `k` has taken `request` last and is settled with a good reply to it. */
  lemma SettleKeepsOutput(k: Conn, before: seq<Frame>, request: Frame, reply: Reply)
    requires AnswerDue(k.taken) == before + if IsUnregistration(request) then [] else [request]
    requires ParseFrames(k.output).rest == [] && AnswersAll(ParseFrames(k.output).frames, before)
    requires GoodReply(reply, request)
    ensures OutputInvariant(Settle(k, reply))
  {
    hide ParseFrames, AnswerDue, AnswersAll, IsUnregistration, IsSendRr, EncodeFrame, Answers;
    assert before + [] == before;
    match reply {
      case NoReply =>
      case Raise => assert (before + [request])[..|before|] == before;
      case Send(bytes) => SendAnswers(k.output, bytes, before, request);
    }
  }

  lemma DispatchKeepsOutput(cfg: Config, w: World, c: nat)
    requires ValidConfig(cfg) && Enabled(w, Dispatch(c)) && w.shared.next >= 1
    requires OutputInvariant(w.conns[c])
    ensures OutputInvariant(Next(cfg, w, Dispatch(c)).conns[c])
  {
    hide Admit, ParseFrames, AnswerDue, AnswersAll, Complete, FirstFrame, AfterFirst, IsUnregistration;
    hide GoodReply, Settle;
    var k := w.conns[c];
    var f := FirstFrame(k.buffer);
    var due := AnswerDue(k.taken);
    AdmitReplies(cfg, w.shared, k.sessions, f);
    AnswerDueSnoc(k.taken, f);
    match Admit(cfg, w.shared, k.sessions, f) {
      case Settled(reply, _, sessions) => SettleKeepsOutput(Taken(k).(sessions := sessions), due, f, reply);
      case Admitted =>
        SendRrIsDue(f);
        assert (due + [f])[..|due|] == due;
    }
  }

  lemma SendRrIsDue(f: Frame)
    requires IsSendRr(f)
    ensures !IsUnregistration(f)
  {
  }

  lemma CipKeepsOutput(cfg: Config, w: World, c: nat)
    requires ValidConfig(cfg) && Enabled(w, RunCip(c))
    requires OutputInvariant(w.conns[c])
    ensures OutputInvariant(Next(cfg, w, RunCip(c)).conns[c])
  {
    hide RunSendRr, ParseFrames, AnswerDue, AnswersAll, GoodReply, CipEvents, Settle, IsUnregistration, IsSendRr;
    var k := w.conns[c];
    var f := k.phase.frame;
    var due := AnswerDue(k.taken);
    CipReplies(cfg, w.shared.assemblies, f);
    SendRrIsDue(f);
    assert due == due[..|due| - 1] + [f];
    SettleKeepsOutput(k, due[..|due| - 1], f, RunSendRr(cfg, w.shared.assemblies, f).reply);
  }

  // ---------------------------------------------------------------- every run

  ghost predicate StreamsInvariant(w: World) {
    w.shared.next >= 1 && forall c :: c in w.conns ==> InputInvariant(w.conns[c]) && OutputInvariant(w.conns[c])
  }

  lemma FreshStreams()
    ensures InputInvariant(FRESH) && OutputInvariant(FRESH)
  {
  }

  lemma SettleKeepsInput(k: Conn, reply: Reply)
    requires InputInvariant(k)
    ensures InputInvariant(Settle(k, reply))
  {
  }

  lemma DispatchKeepsInput(cfg: Config, w: World, c: nat)
    requires ValidConfig(cfg) && Enabled(w, Dispatch(c)) && InputInvariant(w.conns[c])
    ensures InputInvariant(Next(cfg, w, Dispatch(c)).conns[c])
  {
    hide Admit, ParseFrames, Complete, FirstFrame, AfterFirst, Settle;
    var k := w.conns[c];
    TakeKeepsInput(k);
    match Admit(cfg, w.shared, k.sessions, FirstFrame(k.buffer)) {
      case Settled(reply, _, sessions) => SettleKeepsInput(Taken(k).(sessions := sessions), reply);
      case Admitted =>
    }
  }

  /** What the step leaves of the connection it is about. */
  lemma StepKeepsConn(cfg: Config, w: World, step: Step, c: nat)
    requires ValidConfig(cfg) && StreamsInvariant(w)
    requires Enabled(w, step) && !step.ApiWrite? && step.conn == c
    ensures var w' := Next(cfg, w, step);
            c in w'.conns && InputInvariant(w'.conns[c]) && OutputInvariant(w'.conns[c])
  {
    hide Admit, RunSendRr, CipEvents, ParseFrames, AnswerDue, AnswersAll, Complete, FirstFrame, AfterFirst, Settle;
    match step {
      case Open(_) => FreshStreams();
      case Receive(_, chunk) => ReceiveKeepsInput(w.conns[c], chunk);
      case Dispatch(_) =>
        DispatchKeepsOutput(cfg, w, c);
        DispatchKeepsInput(cfg, w, c);
      case RunCip(_) =>
        CipKeepsOutput(cfg, w, c);
        SettleKeepsInput(w.conns[c], RunSendRr(cfg, w.shared.assemblies, w.conns[c].phase.frame).reply);
      case Close(_) =>
    }
  }

  lemma NextNeverDrops(cfg: Config, w: World, step: Step)
    requires ValidConfig(cfg)
    ensures w.shared.next <= Next(cfg, w, step).shared.next
    ensures forall d :: d in Next(cfg, w, step).conns && (step.ApiWrite? || !Enabled(w, step) || d != step.conn)
                        ==> d in w.conns && Next(cfg, w, step).conns[d] == w.conns[d]
  {
  }

  lemma StepKeepsStreams(cfg: Config, w: World, step: Step)
    requires ValidConfig(cfg) && StreamsInvariant(w)
    ensures StreamsInvariant(Next(cfg, w, step))
  {
    hide Next, Enabled, InputInvariant, OutputInvariant;
    NextNeverDrops(cfg, w, step);
    if Enabled(w, step) && !step.ApiWrite? {
      StepKeepsConn(cfg, w, step, step.conn);
    }
  }

  lemma {:induction false} RunKeepsStreams(cfg: Config, steps: seq<Step>)
    requires ValidConfig(cfg)
    ensures StreamsInvariant(Run(cfg, steps))
    decreases |steps|
  {
    if steps != [] {
      hide Next, StreamsInvariant;
      RunKeepsStreams(cfg, steps[..|steps| - 1]);
      StepKeepsStreams(cfg, Run(cfg, steps[..|steps| - 1]), steps[|steps| - 1]);
    }
  }

  /**
   * Chunking does not matter, whatever the other connections do: a connection that has handled all
   * it can has taken exactly the frames of a one-shot parse of its input, and holds the leftover.
   */
  lemma InputIsOneParse(cfg: Config, steps: seq<Step>, c: nat)
    requires ValidConfig(cfg) && c in Run(cfg, steps).conns
    ensures var k := Run(cfg, steps).conns[c];
            && k.taken <= ParseFrames(k.received).frames
            && (!Complete(k.buffer) ==> ParseFrames(k.received) == Parsed(k.taken, k.buffer))
  {
    hide Run, Complete, FirstFrame, AfterFirst, OutputInvariant;
    RunKeepsStreams(cfg, steps);
    var k := Run(cfg, steps).conns[c];
    assert InputInvariant(k);
    if !Complete(k.buffer) {
      assert k.taken + [] == k.taken;
    }
  }

  /**
   * The bytes sent are always a well-formed stream: they parse, with nothing left over, into one
   * reply per request that is due one, in request order. Between two frames none is outstanding; a
   * connection that waits for its CIP action or that failed lacks exactly the last one.
   */
  lemma OutputIsAnswers(cfg: Config, steps: seq<Step>, c: nat)
    requires ValidConfig(cfg) && c in Run(cfg, steps).conns
    ensures var k := Run(cfg, steps).conns[c];
            var sent, due := ParseFrames(k.output), AnswerDue(k.taken);
            && sent.rest == []
            && (AnswersAll(sent.frames, due) || (|due| >= 1 && AnswersAll(sent.frames, due[..|due| - 1])))
            && (k.phase.Idle? ==> AnswersAll(sent.frames, due))
            && (k.phase.Awaiting? || k.phase.Failed? ==>
                  |due| >= 1 && AnswersAll(sent.frames, due[..|due| - 1]))
            && (k.phase.Awaiting? ==> due[|due| - 1] == k.phase.frame)
  {
    hide Run, ParseFrames, AnswerDue, AnswersAll, InputInvariant;
    RunKeepsStreams(cfg, steps);
    assert OutputInvariant(Run(cfg, steps).conns[c]);
  }

  /** Every closed connection has sent all replies that were due. */
  ghost predicate ClosedAnswered(w: World) {
    forall c :: c in w.conns && w.conns[c].phase.Closed? ==>
                  AnswersAll(ParseFrames(w.conns[c].output).frames, AnswerDue(w.conns[c].taken))
  }

  lemma StepKeepsClosed(cfg: Config, w: World, step: Step)
    requires ValidConfig(cfg) && StreamsInvariant(w) && SizesInvariant(w) && ClosedAnswered(w)
    ensures ClosedAnswered(Next(cfg, w, step))
  {
    hide Admit, RunSendRr, CipEvents, ParseFrames, AnswerDue, AnswersAll, Complete, FirstFrame, AfterFirst, SizesFit;
    hide InputInvariant, SessionEvents;
  }

  lemma {:induction false} RunKeepsClosed(cfg: Config, steps: seq<Step>)
    requires ValidConfig(cfg) && NameFits(cfg.identity) && SizesFit(cfg.assemblies)
    requires ApiStaysWithinSizes(steps)
    requires Run(cfg, steps).shared.next <= 0x1_0000_0000
    ensures ClosedAnswered(Run(cfg, steps))
    decreases |steps|
  {
    hide Next, NameFits, SizesFit, StreamsInvariant, SizesInvariant;
    if steps != [] {
      hide ClosedAnswered;
      var n := |steps| - 1;
      var w := Run(cfg, steps[..n]);
      NextNeverDrops(cfg, w, steps[n]);
      RunKeepsClosed(cfg, steps[..n]);
      RunKeepsStreams(cfg, steps[..n]);
      NothingOverflows(cfg, steps[..n]);
      StepKeepsClosed(cfg, w, steps[n]);
    }
  }

  /**
   * Where nothing can overflow, no request is lost: outside a CIP action that is still to run, every
   * connection, open or closed, has sent one reply for each request that is due one.
   */
  lemma EveryRequestAnswered(cfg: Config, steps: seq<Step>, c: nat)
    requires ValidConfig(cfg) && NameFits(cfg.identity) && SizesFit(cfg.assemblies)
    requires ApiStaysWithinSizes(steps)
    requires Run(cfg, steps).shared.next <= 0x1_0000_0000
    requires c in Run(cfg, steps).conns && !Run(cfg, steps).conns[c].phase.Awaiting?
    ensures var k := Run(cfg, steps).conns[c];
            ParseFrames(k.output).rest == [] && AnswersAll(ParseFrames(k.output).frames, AnswerDue(k.taken))
  {
    hide Run, NameFits, SizesFit, ParseFrames, AnswerDue, AnswersAll, InputInvariant;
    RunKeepsStreams(cfg, steps);
    RunKeepsClosed(cfg, steps);
    NothingOverflows(cfg, steps);
    assert OutputInvariant(Run(cfg, steps).conns[c]);
  }
}
