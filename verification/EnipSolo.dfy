/** A connection that has the server to itself: the interleaved runs and the server loop agree. */
module EnipSolo {
  import opened Bytes
  import opened EnipFrames
  import opened EnipProtocol
  import opened EnipRuns
  import opened EnipStreams

  /** No other connection and no API call in between. */
  predicate Solo(steps: seq<Step>, c: nat) {
    forall k :: 0 <= k < |steps| ==> !steps[k].ApiWrite? && steps[k].conn == c
  }

  function Unserved(cfg: Config): Served {
    Served([], Initial(cfg), {}, false)
  }

  /** The connection stands where the server loop stands after the frames taken so far. */
  ghost predicate Agrees(cfg: Config, w: World, c: nat)
    requires ValidConfig(cfg)
  {
    && w.conns.Keys <= {c}
    && if c !in w.conns then w.shared == Initial(cfg)
       else
         var k := w.conns[c];
         && AllFramesFit(k.taken)
         && match k.phase
            case Idle => ServeFrames(cfg, Unserved(cfg), k.taken) == Served(k.output, w.shared, k.sessions, false)
            case Awaiting(f) =>
              && |k.taken| >= 1 && k.taken[|k.taken| - 1] == f && AllFramesFit(k.taken[..|k.taken| - 1])
              && Admit(cfg, w.shared, k.sessions, f).Admitted?
              && ServeFrames(cfg, Unserved(cfg), k.taken[..|k.taken| - 1])
                 == Served(k.output, w.shared, k.sessions, false)
            case Failed => ServeFrames(cfg, Unserved(cfg), k.taken) == Served(k.output, w.shared, k.sessions, true)
            case Closed =>
              var served := ServeFrames(cfg, Unserved(cfg), k.taken);
              k.output == served.output && w.shared == Release(served.shared, served.sessions)
  }

  lemma DispatchAgrees(cfg: Config, w: World, c: nat)
    requires ValidConfig(cfg) && Agrees(cfg, w, c) && Enabled(w, Dispatch(c))
    ensures Agrees(cfg, Next(cfg, w, Dispatch(c)), c)
  {
    hide Admit, ServeFrames, Complete, FirstFrame, AfterFirst, SessionEvents, RunSendRr;
    var k, f := w.conns[c], FirstFrame(w.conns[c].buffer);
    ServeStep(cfg, Unserved(cfg), k.taken, f);
    assert (k.taken + [f])[..|k.taken|] == k.taken;
  }

  lemma CipAgrees(cfg: Config, w: World, c: nat)
    requires ValidConfig(cfg) && Agrees(cfg, w, c) && Enabled(w, RunCip(c))
    ensures Agrees(cfg, Next(cfg, w, RunCip(c)), c)
  {
    hide Admit, ServeFrames, Complete, FirstFrame, AfterFirst, CipEvents, RunSendRr;
    var taken := w.conns[c].taken;
    var before, f := taken[..|taken| - 1], taken[|taken| - 1];
    assert taken == before + [f];
    ServeStep(cfg, Unserved(cfg), before, f);
  }

  lemma StepAgrees(cfg: Config, w: World, step: Step, c: nat)
    requires ValidConfig(cfg) && Agrees(cfg, w, c) && !step.ApiWrite? && step.conn == c
    ensures Agrees(cfg, Next(cfg, w, step), c)
  {
    if Enabled(w, step) {
      match step {
        case Dispatch(_) => DispatchAgrees(cfg, w, c);
        case RunCip(_) => CipAgrees(cfg, w, c);
        case _ => hide Admit, HandleFrame, Complete, FirstFrame, AfterFirst;
      }
    }
  }

  lemma {:induction false} SoloAgrees(cfg: Config, steps: seq<Step>, c: nat)
    requires ValidConfig(cfg) && Solo(steps, c)
    ensures Agrees(cfg, Run(cfg, steps), c)
    decreases |steps|
  {
    hide Next, Enabled, ServeFrames;
    if steps != [] {
      var n := |steps| - 1;
      SoloAgrees(cfg, steps[..n], c);
      StepAgrees(cfg, Run(cfg, steps[..n]), steps[n], c);
    }
  }

  /**
   * Every run of one connection alone is a run of the server loop: once it has handled what it can,
   * its output, leftover and the shared state are those of a one-shot parse of all its input.
   */
  lemma SoloRunIsServed(cfg: Config, steps: seq<Step>, c: nat)
    requires ValidConfig(cfg) && Solo(steps, c) && c in Run(cfg, steps).conns
    requires Run(cfg, steps).conns[c].phase.Idle? && !Complete(Run(cfg, steps).conns[c].buffer)
    ensures var w := Run(cfg, steps);
            var k, parsed := w.conns[c], ParseFrames(w.conns[c].received);
            && AllFramesFit(parsed.frames) && k.buffer == parsed.rest
            && ServeFrames(cfg, Unserved(cfg), parsed.frames) == Served(k.output, w.shared, k.sessions, false)
  {
    hide Run, ParseFrames, ServeFrames, Complete;
    SoloAgrees(cfg, steps, c);
    InputIsOneParse(cfg, steps, c);
  }

  // ---------------------------------------------------------------- every stream has such a run

  /** The connection is done with its buffer, or its handler has failed. */
  predicate Drained(w: World, c: nat) {
    c in w.conns
    && ((w.conns[c].phase.Idle? && !Complete(w.conns[c].buffer)) || w.conns[c].phase.Failed?)
  }

  lemma OneFrame(cfg: Config, w: World, c: nat)
    requires ValidConfig(cfg) && Enabled(w, Dispatch(c))
    ensures var w1 := Next(cfg, w, Dispatch(c));
            var w2 := if Enabled(w1, RunCip(c)) then Next(cfg, w1, RunCip(c)) else w1;
            && c in w2.conns && (w2.conns[c].phase.Idle? || w2.conns[c].phase.Failed?)
            && w2.conns[c].received == w.conns[c].received && |w2.conns[c].buffer| < |w.conns[c].buffer|
  {
    hide Admit, Complete, FirstFrame, SessionEvents, CipEvents, RunSendRr;
  }

  lemma {:induction false} Drain(cfg: Config, steps: seq<Step>, c: nat) returns (more: seq<Step>)
    requires ValidConfig(cfg) && Solo(steps, c) && c in Run(cfg, steps).conns
    requires Run(cfg, steps).conns[c].phase.Idle? || Run(cfg, steps).conns[c].phase.Failed?
    ensures Solo(more, c) && Drained(Run(cfg, more), c)
    ensures Run(cfg, more).conns[c].received == Run(cfg, steps).conns[c].received
    decreases |Run(cfg, steps).conns[c].buffer|
  {
    hide Next, Run, Complete;
    if Drained(Run(cfg, steps), c) {
      more := steps;
    } else {
      OneFrame(cfg, Run(cfg, steps), c);
      more := steps + [Dispatch(c)];
      RunSnoc(cfg, steps, Dispatch(c));
      if Enabled(Run(cfg, more), RunCip(c)) {
        RunSnoc(cfg, more, RunCip(c));
        more := more + [RunCip(c)];
      }
      more := Drain(cfg, more, c);
    }
  }

  lemma OpensEmpty(cfg: Config, c: nat)
    requires ValidConfig(cfg)
    ensures c in Run(cfg, [Open(c)]).conns && Run(cfg, [Open(c)]).conns[c] == FRESH && !Complete([])
  {
    assert [Open(c)][..0] == [];
  }

  lemma Receives(cfg: Config, w: World, c: nat, chunk: seq<Byte>)
    requires ValidConfig(cfg) && Enabled(w, Receive(c, chunk))
    ensures var w' := Next(cfg, w, Receive(c, chunk));
            && c in w'.conns && w'.conns[c].phase.Idle? && w'.conns[c].received == w.conns[c].received + chunk
  {
  }

  lemma {:induction false} FeedAll(cfg: Config, c: nat, chunks: seq<seq<Byte>>) returns (steps: seq<Step>)
    requires ValidConfig(cfg) && [] !in chunks
    ensures Solo(steps, c) && Drained(Run(cfg, steps), c)
    ensures var k := Run(cfg, steps).conns[c];
            if k.phase.Idle? then k.received == Join(chunks) else k.received <= Join(chunks)
    decreases |chunks|
  {
    hide Next, Run, Complete;
    if chunks == [] {
      steps := [Open(c)];
      OpensEmpty(cfg, c);
    } else {
      var n := |chunks| - 1;
      steps := FeedAll(cfg, c, chunks[..n]);
      var w := Run(cfg, steps);
      if w.conns[c].phase.Idle? {
        var step := Receive(c, chunks[n]);
        Receives(cfg, w, c, chunks[n]);
        RunSnoc(cfg, steps, step);
        steps := Drain(cfg, steps + [step], c);
      }
    }
  }

  /** A failed handler has served what it could, and more input would not change that. */
  lemma FailedIsServed(cfg: Config, steps: seq<Step>, c: nat, stream: seq<Byte>)
    requires ValidConfig(cfg) && Solo(steps, c) && c in Run(cfg, steps).conns
    requires Run(cfg, steps).conns[c].phase.Failed? && Run(cfg, steps).conns[c].received <= stream
    ensures var w := Run(cfg, steps);
            && AllFramesFit(ParseFrames(stream).frames)
            && ServeFrames(cfg, Unserved(cfg), ParseFrames(stream).frames)
               == Served(w.conns[c].output, w.shared, w.conns[c].sessions, true)
  {
    hide Run, ParseFrames, ServeFrames, Complete;
    SoloAgrees(cfg, steps, c);
    InputIsOneParse(cfg, steps, c);
    var k := Run(cfg, steps).conns[c];
    ParseResumes(k.received, stream[|k.received|..]);
    assert k.received + stream[|k.received|..] == stream;
    ParsedFit(stream);
    var frames := ParseFrames(stream).frames;
    var later := frames[|k.taken|..];
    assert frames == k.taken + later;
    assert AllFramesFit(later);
    ServeSplit(cfg, Unserved(cfg), k.taken, later);
    RaisedStays(cfg, ServeFrames(cfg, Unserved(cfg), k.taken), later);
  }

  /**
   * And every stream, in every chunking, has such a run from the first chunk to the release of the
   * sessions: nothing the loop serves is out of reach of the interleaved model.
   */
  lemma StreamIsServed(cfg: Config, c: nat, chunks: seq<seq<Byte>>) returns (steps: seq<Step>)
    requires ValidConfig(cfg) && [] !in chunks
    ensures Solo(steps, c) && c in Run(cfg, steps).conns && Run(cfg, steps).conns[c].phase.Closed?
    ensures AllFramesFit(ParseFrames(Join(chunks)).frames)
    ensures var served := ServeFrames(cfg, Unserved(cfg), ParseFrames(Join(chunks)).frames);
            && Run(cfg, steps).conns[c].output == served.output
            && Run(cfg, steps).shared == Release(served.shared, served.sessions)
  {
    hide Run, ParseFrames, ServeFrames, Complete, AllFramesFit;
    var before := FeedAll(cfg, c, chunks);
    if Run(cfg, before).conns[c].phase.Idle? {
      SoloRunIsServed(cfg, before, c);
    } else {
      FailedIsServed(cfg, before, c, Join(chunks));
    }
    RunSnoc(cfg, before, Close(c));
    steps := before + [Close(c)];
  }
}
