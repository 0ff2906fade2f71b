/** The session handles on the wire are the ones that the history of the run issued. */
module EnipHandles {
  import opened Bytes
  import opened EnipFrames
  import opened EnipObjects
  import opened EnipProtocol
  import opened EnipRuns
  import opened EnipSessions
  import opened EnipStreams

  /** The handles issued to a connection, in order. */
  function IssuedTo(log: seq<Event>, c: nat): seq<nat> {
    if log == [] then []
    else
      var e, before := log[|log| - 1], IssuedTo(log[..|log| - 1], c);
      if e.Issued? && e.conn == c then before + [e.handle] else before
  }

  /** The handles that replies grant, in order; `requests` are the requests they answer. */
  function GrantedBy(replies: seq<Frame>, requests: seq<Frame>): seq<nat>
    requires |replies| <= |requests|
  {
    if replies == [] then []
    else
      var n := |replies| - 1;
      GrantedBy(replies[..n], requests) + if IsRegistration(requests[n]) then [replies[n].session] else []
  }

  /** A registration that was taken and is not answered: its reply could not be packed. */
  predicate Unanswered(replies: seq<Frame>, requests: seq<Frame>) {
    |replies| < |requests| && IsRegistration(requests[|replies|])
  }

  /** The granted handles are the issued ones, but for a last one that no reply could carry. */
  ghost predicate HandlesMatch(replies: seq<Frame>, requests: seq<Frame>, issued: seq<nat>) {
    && |replies| <= |requests|
    && var granted := GrantedBy(replies, requests);
       if Unanswered(replies, requests)
       then |issued| == |granted| + 1 && issued[..|granted|] == granted && issued[|granted|] >= 0x1_0000_0000
       else issued == granted
  }

  lemma IssuedSnoc(log: seq<Event>, e: Event, c: nat)
    ensures IssuedTo(log + [e], c)
            == IssuedTo(log, c) + if e.Issued? && e.conn == c then [e.handle] else []
  {
    assert (log + [e])[..|log|] == log;
  }

  lemma {:induction false} IssuedKeeps(log: seq<Event>, events: seq<Event>, c: nat)
    requires forall k :: 0 <= k < |events| ==> !(events[k].Issued? && events[k].conn == c)
    ensures IssuedTo(log + events, c) == IssuedTo(log, c)
    decreases |events|
  {
    if events == [] {
      assert log + events == log;
    } else {
      var n := |events| - 1;
      assert log + events == (log + events[..n]) + [events[n]];
      IssuedSnoc(log + events[..n], events[n], c);
      IssuedKeeps(log, events[..n], c);
    }
  }

  /** More requests than replies do not matter. */
  lemma {:induction false} GrantedPrefix(replies: seq<Frame>, requests: seq<Frame>, more: seq<Frame>)
    requires |replies| <= |requests|
    ensures GrantedBy(replies, requests + more) == GrantedBy(replies, requests)
    decreases |replies|
  {
    if replies != [] {
      GrantedPrefix(replies[..|replies| - 1], requests, more);
    }
  }

  lemma GrantedSnoc(replies: seq<Frame>, g: Frame, requests: seq<Frame>)
    requires |replies| < |requests|
    ensures GrantedBy(replies + [g], requests)
            == GrantedBy(replies, requests) + if IsRegistration(requests[|replies|]) then [g.session] else []
  {
    assert (replies + [g])[..|replies|] == replies;
  }

  /** The connection's replies and the history agree; a connection that is not there has no handles. */
  ghost predicate Matches(w: World, c: nat) {
    if c in w.conns
    then HandlesMatch(ParseFrames(w.conns[c].output).frames, AnswerDue(w.conns[c].taken), IssuedTo(w.log, c))
    else IssuedTo(w.log, c) == []
  }

  // ---------------------------------------------------------------- steps

  /** Only the dispatch of a registration issues a handle, the next one, to its own connection. */
  lemma StepEvents(cfg: Config, w: World, step: Step) returns (events: seq<Event>)
    requires ValidConfig(cfg)
    ensures Next(cfg, w, step).log == w.log + events
    ensures forall k :: 0 <= k < |events| && events[k].Issued? ==>
                          && step.Dispatch? && Enabled(w, step) && IsRegistration(FirstFrame(w.conns[step.conn].buffer))
                          && events == [Issued(step.conn, w.shared.next)]
    ensures step.Dispatch? && Enabled(w, step) && IsRegistration(FirstFrame(w.conns[step.conn].buffer)) ==>
              events == [Issued(step.conn, w.shared.next)]
  {
    hide Complete, FirstFrame, AfterFirst, BuildReply, RunSendRr, Settle, CipEvents, ListIdentityPayload, NameFits;
    assert w.log + [] == w.log;
    if step.RunCip? && Enabled(w, step) {
      CipEventsAreWrites(w.shared.assemblies, w.conns[step.conn].phase.frame);
    }
    events := Next(cfg, w, step).log[|w.log|..];
  }

  /** A reply is sent behind the others. */
  lemma SentBehind(output: seq<Byte>, bytes: seq<Byte>, request: Frame) returns (g: Frame)
    requires ParseFrames(output).rest == [] && GoodReply(Send(bytes), request)
    ensures ParseFrames(output + bytes).frames == ParseFrames(output).frames + [g]
  {
    hide ParseFrames, EncodeFrame, Answers;
    var frame, status :| Fits(frame) && bytes == EncodeFrame(frame, status) && Answers(frame, request);
    SentFrame(output, frame, status);
    g := frame;
  }

  /** A request other than a registration keeps the match, answered or not. */
  lemma OtherReplyMatches(k: Conn, before: seq<Frame>, request: Frame, reply: Reply, issued: seq<nat>)
    requires ParseFrames(k.output).rest == [] && |ParseFrames(k.output).frames| == |before|
    requires !IsRegistration(request) && GoodReply(reply, request)
    requires HandlesMatch(ParseFrames(k.output).frames, before, issued)
    ensures HandlesMatch(ParseFrames(Settle(k, reply).output).frames,
                         before + if IsUnregistration(request) then [] else [request], issued)
  {
    hide ParseFrames, IsRegistration, IsUnregistration;
    var sent := ParseFrames(k.output).frames;
    assert before + [] == before;
    GrantedPrefix(sent, before, [request]);
    if reply.Send? {
      var g := SentBehind(k.output, reply.bytes, request);
      GrantedSnoc(sent, g, before + [request]);
    }
  }

  lemma RegistrationMatches(k: Conn, due: seq<Frame>, f: Frame, next: nat, issued: seq<nat>)
    requires Fits(f) && IsRegistration(f)
    requires ParseFrames(k.output).rest == [] && |ParseFrames(k.output).frames| == |due|
    requires HandlesMatch(ParseFrames(k.output).frames, due, issued)
    ensures var reply := if next >= 0x1_0000_0000 then Raise
                         else Send(EncodeFrame(Frame(f.command, next, f.context, 0, f.payload), ENCAP_SUCCESS));
            HandlesMatch(ParseFrames(Settle(k, reply).output).frames, due + [f], issued + [next])
  {
    hide ParseFrames, EncodeFrame, IsRegistration;
    var sent := ParseFrames(k.output).frames;
    GrantedPrefix(sent, due, [f]);
    if next < 0x1_0000_0000 {
      var g := Frame(f.command, next, f.context, 0, f.payload);
      SentFrame(k.output, g, ENCAP_SUCCESS);
      GrantedSnoc(sent, g, due + [f]);
    }
  }

  lemma SettleKeepsTaken(k: Conn, reply: Reply)
    ensures Settle(k, reply).taken == k.taken
  {
  }

  lemma RegistrationIsDue(f: Frame)
    requires IsRegistration(f)
    ensures !IsUnregistration(f) && !IsSendRr(f)
  {
  }

  /** A request whose reply is still to come keeps the match, too. */
  lemma WaitingMatches(replies: seq<Frame>, before: seq<Frame>, request: Frame, issued: seq<nat>)
    requires |replies| == |before| && !IsRegistration(request) && HandlesMatch(replies, before, issued)
    ensures HandlesMatch(replies, before + [request], issued)
  {
    hide IsRegistration;
    GrantedPrefix(replies, before, [request]);
  }

  lemma DispatchMatches(cfg: Config, w: World, c: nat)
    requires ValidConfig(cfg) && StreamsInvariant(w) && Enabled(w, Dispatch(c)) && Matches(w, c)
    ensures Matches(Next(cfg, w, Dispatch(c)), c)
  {
    hide Admit, ParseFrames, AnswerDue, Complete, FirstFrame, AfterFirst, IsUnregistration, IsRegistration, GoodReply;
    hide Settle, HandlesMatch, InputInvariant, SessionEvents, Answers, IsSendRr, IssuedTo;
    var k, f := w.conns[c], FirstFrame(w.conns[c].buffer);
    var due, issued := AnswerDue(k.taken), IssuedTo(w.log, c);
    assert OutputInvariant(k);
    AdmitReplies(cfg, w.shared, k.sessions, f);
    AnswerDueSnoc(k.taken, f);
    var events := StepEvents(cfg, w, Dispatch(c));
    if IsRegistration(f) {
      RegistrationIsDue(f);
      RegistrationReplies(cfg, w.shared, k.sessions, f);
      IssuedSnoc(w.log, Issued(c, w.shared.next), c);
    } else {
      IssuedKeeps(w.log, events, c);
    }
    match Admit(cfg, w.shared, k.sessions, f) {
      case Settled(reply, _, sessions) =>
        var taken := Taken(k).(sessions := sessions);
        SettleKeepsTaken(taken, reply);
        if IsRegistration(f) {
          RegistrationMatches(taken, due, f, w.shared.next, issued);
        } else {
          OtherReplyMatches(taken, due, f, reply, issued);
        }
      case Admitted =>
        SendRrIsDue(f);
        WaitingMatches(ParseFrames(k.output).frames, due, f, issued);
    }
  }

  lemma CipMatches(cfg: Config, w: World, c: nat)
    requires ValidConfig(cfg) && StreamsInvariant(w) && Enabled(w, RunCip(c)) && Matches(w, c)
    ensures Matches(Next(cfg, w, RunCip(c)), c)
  {
    hide RunSendRr, ParseFrames, AnswerDue, Complete, FirstFrame, AfterFirst, IsUnregistration, IsRegistration;
    hide GoodReply, Settle, InputInvariant, Answers, IssuedTo, CipEvents, IsSendRr, GrantedBy;
    var k, f := w.conns[c], w.conns[c].phase.frame;
    var due, issued := AnswerDue(k.taken), IssuedTo(w.log, c);
    var before, sent := due[..|due| - 1], ParseFrames(k.output).frames;
    assert OutputInvariant(k);
    assert due == before + [f];
    SendRrIsDue(f);
    SendRrRegistersNothing(f);
    GrantedPrefix(sent, before, [f]);
    var events := StepEvents(cfg, w, RunCip(c));
    IssuedKeeps(w.log, events, c);
    CipReplies(cfg, w.shared.assemblies, f);
    var reply := RunSendRr(cfg, w.shared.assemblies, f).reply;
    SettleKeepsTaken(k, reply);
    OtherReplyMatches(k, before, f, reply, issued);
  }

  lemma SendRrRegistersNothing(f: Frame)
    requires IsSendRr(f)
    ensures !IsRegistration(f)
  {
  }

  lemma FreshMatches()
    ensures HandlesMatch(ParseFrames(FRESH.output).frames, AnswerDue(FRESH.taken), [])
  {
  }

  lemma StepMatches(cfg: Config, w: World, step: Step, c: nat)
    requires ValidConfig(cfg) && StreamsInvariant(w) && Matches(w, c)
    ensures Matches(Next(cfg, w, step), c)
  {
    hide DispatchStep, CipStep, Complete, FirstFrame, AfterFirst, ParseFrames, AnswerDue, HandlesMatch, IssuedTo;
    hide InputInvariant, OutputInvariant, IsRegistration;
    if step == Dispatch(c) && Enabled(w, step) {
      DispatchMatches(cfg, w, c);
    } else if step == RunCip(c) && Enabled(w, step) {
      CipMatches(cfg, w, c);
    } else {
      var events := StepEvents(cfg, w, step);
      IssuedKeeps(w.log, events, c);
      NextNeverDrops(cfg, w, step);
      FreshMatches();
      if step.ApiWrite? || !Enabled(w, step) || step.conn != c {
        OthersStay(cfg, w, step, c);
      }
    }
  }

  lemma OthersStay(cfg: Config, w: World, step: Step, c: nat)
    requires ValidConfig(cfg) && (step.ApiWrite? || !Enabled(w, step) || step.conn != c)
    ensures c in Next(cfg, w, step).conns <==> c in w.conns
  {
  }

  lemma {:induction false} RunMatches(cfg: Config, steps: seq<Step>, c: nat)
    requires ValidConfig(cfg)
    ensures Matches(Run(cfg, steps), c)
    decreases |steps|
  {
    if steps != [] {
      hide Next, Matches;
      var n := |steps| - 1;
      RunMatches(cfg, steps[..n], c);
      RunKeepsStreams(cfg, steps[..n]);
      StepMatches(cfg, Run(cfg, steps[..n]), steps[n], c);
    }
  }

  // ---------------------------------------------------------------- every run

  lemma {:induction false} GrantedIn(replies: seq<Frame>, requests: seq<Frame>, k: nat)
    requires |replies| <= |requests| && k < |replies| && IsRegistration(requests[k])
    ensures replies[k].session in GrantedBy(replies, requests)
    decreases |replies|
  {
    if k < |replies| - 1 {
      GrantedIn(replies[..|replies| - 1], requests, k);
    }
  }

  lemma {:induction false} IssuedIn(log: seq<Event>, c: nat, h: nat)
    requires h in IssuedTo(log, c)
    ensures Issued(c, h) in log
    decreases |log|
  {
    if h in IssuedTo(log[..|log| - 1], c) {
      IssuedIn(log[..|log| - 1], c, h);
    }
  }

  /** The connection's reply number `j` answers a registration with the handle. */
  predicate Grants(k: Conn, j: nat, handle: nat) {
    var sent, due := ParseFrames(k.output).frames, AnswerDue(k.taken);
    j < |sent| && j < |due| && IsRegistration(due[j]) && sent[j].session == handle
  }

  /**
   * In every run the handles granted on a connection's wire are exactly those the history issued to
   * it, in order; only a handle beyond 32 bits is issued without a reply that carries it.
   */
  lemma WireMatchesHistory(cfg: Config, steps: seq<Step>, c: nat)
    requires ValidConfig(cfg) && c in Run(cfg, steps).conns
    ensures var w := Run(cfg, steps);
            && HandlesMatch(ParseFrames(w.conns[c].output).frames, AnswerDue(w.conns[c].taken), IssuedTo(w.log, c))
            && forall j, h :: Grants(w.conns[c], j, h) ==> Issued(c, h) in w.log
  {
    hide Run, ParseFrames, AnswerDue, IsRegistration, IssuedTo, GrantedBy;
    RunMatches(cfg, steps, c);
    var w := Run(cfg, steps);
    var sent, due := ParseFrames(w.conns[c].output).frames, AnswerDue(w.conns[c].taken);
    forall j, h | Grants(w.conns[c], j, h) ensures Issued(c, h) in w.log {
      GrantedIn(sent, due, j);
      IssuedIn(w.log, c, h);
    }
  }

  lemma {:induction false} InIssued(log: seq<Event>, c: nat, h: nat)
    requires Issued(c, h) in log
    ensures h in IssuedTo(log, c)
    decreases |log|
  {
    var n := |log| - 1;
    if log[n] != Issued(c, h) {
      assert log == log[..n] + [log[n]];
      InIssued(log[..n], c, h);
    }
  }

  lemma {:induction false} InGranted(replies: seq<Frame>, requests: seq<Frame>, h: nat) returns (j: nat)
    requires |replies| <= |requests| && h in GrantedBy(replies, requests)
    ensures j < |replies| && IsRegistration(requests[j]) && replies[j].session == h
    decreases |replies|
  {
    j := |replies| - 1;
    if h in GrantedBy(replies[..j], requests) {
      j := InGranted(replies[..j], requests, h);
    }
  }

  /**
   * A SendRRData goes on to its CIP action only under a handle that a registration reply has carried
   * to the connection whose grant still stands.
   */
  lemma CheckedHandleWasSent(cfg: Config, steps: seq<Step>, c: nat) returns (d: nat, j: nat)
    requires ValidConfig(cfg) && Enabled(Run(cfg, steps), Dispatch(c))
    requires IsSendRr(FirstFrame(Run(cfg, steps).conns[c].buffer))
    requires c in Run(cfg, steps + [Dispatch(c)]).conns && Run(cfg, steps + [Dispatch(c)]).conns[c].phase.Awaiting?
    ensures var w := Run(cfg, steps);
            var session := FirstFrame(w.conns[c].buffer).session;
            && Granted(w.log, session, d) && d in w.conns && Grants(w.conns[d], j, session)
  {
    hide Run, Next, FirstFrame, Complete, ParseFrames, AnswerDue, IsRegistration, IssuedTo, GrantedBy, Granted;
    SessionCheck(cfg, steps, c);
    var w := Run(cfg, steps);
    var session := FirstFrame(w.conns[c].buffer).session;
    d :| Granted(w.log, session, d);
    GrantedIsIssued(w.log, session, d);
    InIssued(w.log, d, session);
    RunMatches(cfg, steps, d);
    j := InGranted(ParseFrames(w.conns[d].output).frames, AnswerDue(w.conns[d].taken), session);
  }

  ghost predicate Increasing(handles: seq<nat>) {
    forall j, k :: 0 <= j < k < |handles| ==> handles[j] < handles[k]
  }

  lemma {:induction false} IssuedIncreasing(log: seq<Event>, c: nat)
    requires IssuesIncrease(log)
    ensures Increasing(IssuedTo(log, c))
    decreases |log|
  {
    if log != [] {
      var n := |log| - 1;
      var before := IssuedTo(log[..n], c);
      IssuedIncreasing(log[..n], c);
      forall j | 0 <= j < |before| && log[n].Issued? ensures before[j] < log[n].handle {
        IssuedIn(log[..n], c, before[j]);
      }
    }
  }

  lemma {:induction false} GrantedOrder(replies: seq<Frame>, requests: seq<Frame>, j: nat, k: nat)
    requires |replies| <= |requests| && j < k < |replies|
    requires IsRegistration(requests[j]) && IsRegistration(requests[k])
    requires Increasing(GrantedBy(replies, requests))
    ensures replies[j].session < replies[k].session
    decreases |replies|
  {
    var n := |replies| - 1;
    var before := GrantedBy(replies[..n], requests);
    if k == n {
      GrantedIn(replies[..n], requests, j);
      var at :| 0 <= at < |before| && before[at] == replies[j].session;
      assert GrantedBy(replies, requests)[at] < GrantedBy(replies, requests)[|before|];
    } else {
      assert before == GrantedBy(replies, requests)[..|before|];
      GrantedOrder(replies[..n], requests, j, k);
    }
  }

  /** No two registrations of a run are ever answered with the same handle, on whatever connections. */
  lemma NoHandleTwice(cfg: Config, steps: seq<Step>, c: nat, j: nat, d: nat, k: nat, handle: nat)
    requires ValidConfig(cfg) && c in Run(cfg, steps).conns && d in Run(cfg, steps).conns
    requires Grants(Run(cfg, steps).conns[c], j, handle) && Grants(Run(cfg, steps).conns[d], k, handle)
    ensures c == d && j == k
  {
    hide Run, ParseFrames, AnswerDue, IsRegistration, IssuedTo, GrantedBy, Unanswered;
    var w := Run(cfg, steps);
    SessionTable(cfg, steps);
    WireMatchesHistory(cfg, steps, c);
    WireMatchesHistory(cfg, steps, d);
    OneIssuer(w.log, handle, c, d);
    if j != k {
      IssuedIncreasing(w.log, c);
      var sent, due := ParseFrames(w.conns[c].output).frames, AnswerDue(w.conns[c].taken);
      GrantedOrder(sent, due, if j < k then j else k, if j < k then k else j);
    }
  }
}
