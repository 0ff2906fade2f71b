/**
 * Runs from the server's start that reach what the other modules warn of: a CIP action that outlives
 * its session, and a handle that no reply can carry.
 */
module EnipWitnesses {
  import opened Bytes
  import opened EnipFrames
  import opened EnipPath
  import opened EnipCpf
  import opened EnipObjects
  import opened EnipProtocol
  import opened EnipRuns
  import opened EnipSessions
  import opened EnipExchange

  /** A connection whose buffer holds exactly one frame. */
  predicate Holds(k: Conn, f: Frame) {
    k.phase.Idle? && Complete(k.buffer) && FirstFrame(k.buffer) == f && AfterFirst(k.buffer) == []
  }

  lemma StartsEmpty(cfg: Config)
    requires ValidConfig(cfg)
    ensures Run(cfg, []) == World(Shared(1, {}, cfg.assemblies), map[], [])
  {
  }

  lemma OpensFresh(cfg: Config, w: World, c: nat)
    requires ValidConfig(cfg) && c !in w.conns
    ensures Next(cfg, w, Open(c)) == w.(conns := w.conns[c := FRESH])
  {
  }

  lemma FrameArrives(cfg: Config, w: World, c: nat, f: Frame, status: U32)
    requires ValidConfig(cfg) && Fits(f) && c in w.conns && w.conns[c].phase.Idle? && w.conns[c].buffer == []
    ensures var w' := Next(cfg, w, Receive(c, EncodeFrame(f, status)));
            && w'.shared == w.shared && w'.conns.Keys == w.conns.Keys
            && Holds(w'.conns[c], f) && w'.conns[c].sessions == w.conns[c].sessions
            && forall d :: d in w.conns && d != c ==> w'.conns[d] == w.conns[d]
  {
    hide FirstFrame, AfterFirst, EncodeFrame;
    var bytes := EncodeFrame(f, status);
    EncodedFirst(f, status, []);
    assert [] + bytes == bytes && bytes + [] == bytes;
  }

  lemma RegistrationRuns(cfg: Config, w: World, c: nat, context: seq<Byte>)
    requires ValidConfig(cfg) && |context| == 8 && w.shared.next < 0x1_0000_0000
    requires c in w.conns && Holds(w.conns[c], RegisterFrame(context))
    ensures var w' := Next(cfg, w, Dispatch(c));
            && w'.shared == w.shared.(next := w.shared.next + 1, active := w.shared.active + {w.shared.next})
            && w'.conns.Keys == w.conns.Keys && w'.conns[c].phase.Idle? && w'.conns[c].buffer == []
  {
    hide FirstFrame, AfterFirst, Complete, EncodeFrame;
  }

  lemma SendRrWaits(cfg: Config, w: World, c: nat, f: Frame)
    requires ValidConfig(cfg) && IsSendRr(f) && f.session in w.shared.active
    requires c in w.conns && Holds(w.conns[c], f)
    ensures var w' := Next(cfg, w, Dispatch(c));
            && w'.shared == w.shared && w'.conns.Keys == w.conns.Keys
            && w'.conns[c].phase == Awaiting(f)
  {
    hide FirstFrame, AfterFirst, Complete;
  }

  function Sent(c: nat, f: Frame): Step
    requires Fits(f)
  {
    Receive(c, EncodeFrame(f, 0))
  }

  function LeaveFrame(context: seq<Byte>): Frame {
    Frame(0x66, 1, context, 0, [])
  }

  /** Client 0 registers and sends a request under its session. */
  function RequestSteps(context: seq<Byte>, request: seq<Byte>): seq<Step>
    requires |context| == 8 && |request| <= MAX_REQUEST
  {
    CipFrameFits(1, context, 0, request);
    [Open(0)] + [Sent(0, RegisterFrame(context))] + [Dispatch(0)] + [Sent(0, CipFrame(1, context, 0, request))]
    + [Dispatch(0)]
  }

  /** Client 1 connects and asks to unregister that session. */
  function RacingSteps(context: seq<Byte>, request: seq<Byte>): seq<Step>
    requires |context| == 8 && |request| <= MAX_REQUEST
  {
    RequestSteps(context, request) + [Open(1)] + [Sent(1, LeaveFrame(context))]
  }

  lemma RequestWaits(cfg: Config, context: seq<Byte>, request: seq<Byte>)
    requires ValidConfig(cfg) && |context| == 8 && |request| <= MAX_REQUEST
    ensures var w := Run(cfg, RequestSteps(context, request));
            && w.shared == Shared(2, {1}, cfg.assemblies) && w.conns.Keys == {0}
            && w.conns[0].phase == Awaiting(CipFrame(1, context, 0, request))
  {
    hide Run, Next, Holds, EncodeFrame, EncodeUnconnected, Initial;
    var register, send := RegisterFrame(context), CipFrame(1, context, 0, request);
    CipFrameFits(1, context, 0, request);
    var s1 := [Open(0)];
    var s2 := s1 + [Sent(0, register)];
    var s3 := s2 + [Dispatch(0)];
    var s4 := s3 + [Sent(0, send)];
    assert [] + s1 == s1;
    StartsEmpty(cfg);
    RunSnoc(cfg, [], Open(0));
    OpensFresh(cfg, Run(cfg, []), 0);
    RunSnoc(cfg, s1, Sent(0, register));
    FrameArrives(cfg, Run(cfg, s1), 0, register, 0);
    RunSnoc(cfg, s2, Dispatch(0));
    RegistrationRuns(cfg, Run(cfg, s2), 0, context);
    RunSnoc(cfg, s3, Sent(0, send));
    FrameArrives(cfg, Run(cfg, s3), 0, send, 0);
    RunSnoc(cfg, s4, Dispatch(0));
    SendRrWaits(cfg, Run(cfg, s4), 0, send);
  }

  /** The request waits under session 1, and another connection is about to unregister that session. */
  lemma RaceIsReached(cfg: Config, context: seq<Byte>, request: seq<Byte>)
    requires ValidConfig(cfg) && |context| == 8 && |request| <= MAX_REQUEST
    ensures var w := Run(cfg, RacingSteps(context, request));
            && w.shared == Shared(2, {1}, cfg.assemblies)
            && Enabled(w, RunCip(0)) && w.conns[0].phase.frame == CipFrame(1, context, 0, request)
            && Enabled(w, Dispatch(1)) && FirstFrame(w.conns[1].buffer) == LeaveFrame(context)
  {
    hide Run, Next, RequestSteps, CipFrame, EncodeFrame, Complete, FirstFrame, AfterFirst;
    var s5 := RequestSteps(context, request);
    var s6 := s5 + [Open(1)];
    RequestWaits(cfg, context, request);
    RunSnoc(cfg, s5, Open(1));
    OpensFresh(cfg, Run(cfg, s5), 1);
    RunSnoc(cfg, s6, Sent(1, LeaveFrame(context)));
    FrameArrives(cfg, Run(cfg, s6), 1, LeaveFrame(context), 0);
  }

  /**
   * From the server's start: a write is admitted, its session ends, nobody holds the session any
   * more, and then the write is carried out.
   */
  lemma WriteAfterSessionEnded(cfg: Config, context: seq<Byte>, path: seq<Segment>, i: U32, data: seq<Byte>)
    requires ValidConfig(cfg) && |context| == 8 && i in cfg.assemblies
    requires NamesAssembly(path, i) && |EncodeRequest(0x10, path, data)| <= MAX_REQUEST
    ensures var request := EncodeRequest(0x10, path, data);
            var steps := RacingSteps(context, request) + [Dispatch(1)];
            var w := Run(cfg, steps);
            && Enabled(w, RunCip(0)) && w.conns[0].phase.frame == CipFrame(1, context, 0, request)
            && 1 !in w.shared.active && (forall d :: !Granted(w.log, 1, d))
            && Run(cfg, steps + [RunCip(0)]).shared.assemblies == cfg.assemblies[i := data]
  {
    hide Run, Next, FirstFrame, AfterFirst, Complete, EncodeUnconnected, EncodeRequest, Granted, RacingSteps;
    hide RunSendRr, EncodeFrame, Meaning, EncodePath, PathFits, ValidConfig;
    var request := EncodeRequest(0x10, path, data);
    var race := RacingSteps(context, request);
    var w := Run(cfg, race);
    RaceIsReached(cfg, context, request);
    ActionOutlivesSession(cfg, w, 0, 1);
    RunSnoc(cfg, race, Dispatch(1));
    OthersDoNotDisturb(cfg, w, Dispatch(1), 0);
    RunSnoc(cfg, race + [Dispatch(1)], RunCip(0));
    SessionAtAction(cfg, race + [Dispatch(1)], 0);
    WriteRuns(cfg, w, context, path, i, data);
  }

  lemma WriteRuns(cfg: Config, w: World, context: seq<Byte>, path: seq<Segment>, i: U32, data: seq<Byte>)
    requires ValidConfig(cfg) && |context| == 8 && i in w.shared.assemblies && 1 in w.shared.active
    requires NamesAssembly(path, i) && |EncodeRequest(0x10, path, data)| <= MAX_REQUEST
    requires Enabled(w, RunCip(0))
    requires w.conns[0].phase.frame == CipFrame(1, context, 0, EncodeRequest(0x10, path, data))
    ensures Next(cfg, w, RunCip(0)).shared.assemblies == w.shared.assemblies[i := data]
  {
    hide FirstFrame, AfterFirst, Complete, EncodeUnconnected, EncodeRequest, RunSendRr, EncodeFrame;
    hide Meaning, EncodePath, PathFits;
    WriteHandled(cfg, w.shared, {}, 1, context, 0, path, i, data);
  }

  // ---------------------------------------------------------------- handles run out

  lemma OpensKey(cfg: Config, w: World, c: nat)
    requires ValidConfig(cfg) && c !in w.conns
    ensures Next(cfg, w, Open(c)).conns.Keys == w.conns.Keys + {c}
  {
  }

  /** A new client registers: the next handle is used up, whether or not a reply can carry it. */
  lemma NewClientRegisters(cfg: Config, steps: seq<Step>, c: nat, context: seq<Byte>) returns (more: seq<Step>)
    requires ValidConfig(cfg) && |context| == 8 && c !in Run(cfg, steps).conns
    ensures var w, w' := Run(cfg, steps), Run(cfg, more);
            && w'.shared.next == w.shared.next + 1 && w'.conns.Keys == w.conns.Keys + {c}
            && (w'.conns[c].phase.Failed? <==> w.shared.next >= 0x1_0000_0000)
  {
    hide Run, Next, Holds, EncodeFrame;
    var register := RegisterFrame(context);
    var joined := steps + [Open(c)];
    var sent := joined + [Sent(c, register)];
    more := sent + [Dispatch(c)];
    RunSnoc(cfg, steps, Open(c));
    OpensFresh(cfg, Run(cfg, steps), c);
    OpensKey(cfg, Run(cfg, steps), c);
    RunSnoc(cfg, joined, Sent(c, register));
    FrameArrives(cfg, Run(cfg, joined), c, register, 0);
    RunSnoc(cfg, sent, Dispatch(c));
    RegistrationCounts(cfg, Run(cfg, sent), c, context);
  }

  lemma RegistrationCounts(cfg: Config, w: World, c: nat, context: seq<Byte>)
    requires ValidConfig(cfg) && |context| == 8 && c in w.conns && Holds(w.conns[c], RegisterFrame(context))
    ensures var w' := Next(cfg, w, Dispatch(c));
            && w'.shared.next == w.shared.next + 1 && w'.conns.Keys == w.conns.Keys
            && (w'.conns[c].phase.Failed? <==> w.shared.next >= 0x1_0000_0000)
  {
    hide FirstFrame, AfterFirst, Complete, EncodeFrame;
  }

  /** Every handle is reached, under every configuration. */
  lemma {:induction false} EveryHandleIsReached(cfg: Config, n: nat, context: seq<Byte>) returns (steps: seq<Step>)
    requires ValidConfig(cfg) && |context| == 8 && n >= 1
    ensures Run(cfg, steps).shared.next == n
    ensures forall c :: c in Run(cfg, steps).conns ==> c < n
    decreases n
  {
    hide Next;
    if n == 1 {
      steps := [];
    } else {
      var before := EveryHandleIsReached(cfg, n - 1, context);
      steps := NewClientRegisters(cfg, before, n - 1, context);
    }
  }

  /** So the bound on handles is needed: under every configuration some run ends in a failed handler. */
  lemma HandlesRunOut(cfg: Config, context: seq<Byte>) returns (steps: seq<Step>, c: nat)
    requires ValidConfig(cfg) && |context| == 8
    ensures Run(cfg, steps).shared.next == 0x1_0000_0001
    ensures c in Run(cfg, steps).conns && Run(cfg, steps).conns[c].phase.Failed?
  {
    hide Run;
    c := 0x1_0000_0000;
    var before := EveryHandleIsReached(cfg, c, context);
    steps := NewClientRegisters(cfg, before, c, context);
  }
}
