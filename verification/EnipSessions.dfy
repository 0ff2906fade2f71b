/** Which sessions are active, told from the history of the run alone. */
module EnipSessions {
  import opened EnipFrames
  import opened EnipObjects
  import opened EnipProtocol
  import opened EnipRuns

  /**
   * The handle was issued to the connection, nobody has unregistered it since, and the connection
   * has not been closed since.
   */
  ghost predicate Granted(log: seq<Event>, handle: nat, c: nat) {
    exists k :: 0 <= k < |log| && log[k] == Issued(c, handle) && NotEnded(log, k, handle, c)
  }

  ghost predicate NotEnded(log: seq<Event>, k: int, handle: nat, c: nat) {
    forall j :: 0 <= j && k < j < |log| ==> log[j] != Unregistered(handle) && log[j] != Disconnected(c)
  }

  lemma GrantedAppend(log: seq<Event>, e: Event, handle: nat, c: nat)
    ensures Granted(log + [e], handle, c)
            <==> e == Issued(c, handle)
                 || (Granted(log, handle, c) && e != Unregistered(handle) && e != Disconnected(c))
  {
    var log' := log + [e];
    if Granted(log', handle, c) && e != Issued(c, handle) {
      var k :| 0 <= k < |log'| && log'[k] == Issued(c, handle) && NotEnded(log', k, handle, c);
      assert log[k] == Issued(c, handle) && NotEnded(log, k, handle, c) by {
        assert forall j :: 0 <= j < |log| ==> log'[j] == log[j];
      }
      assert log'[|log|] == e;
    }
    if Granted(log, handle, c) && e != Unregistered(handle) && e != Disconnected(c) {
      var k :| 0 <= k < |log| && log[k] == Issued(c, handle) && NotEnded(log, k, handle, c);
      assert log'[k] == Issued(c, handle) && NotEnded(log', k, handle, c);
    }
    if e == Issued(c, handle) {
      assert log'[|log|] == Issued(c, handle) && NotEnded(log', |log|, handle, c);
    }
  }

  /** Handles are issued in increasing order, hence none is issued twice. */
  ghost predicate IssuesIncrease(log: seq<Event>) {
    forall j, k :: 0 <= j < k < |log| && log[j].Issued? && log[k].Issued? ==> log[j].handle < log[k].handle
  }

  ghost predicate IssuedBelow(log: seq<Event>, next: nat) {
    forall k :: 0 <= k < |log| && log[k].Issued? ==> 1 <= log[k].handle < next
  }

  // ---------------------------------------------------------------- the session table alone

  /** The part of a world that concerns sessions; `sets` has the open connections only. */
  datatype Table = Table(next: nat, active: set<nat>, sets: map<nat, set<nat>>, log: seq<Event>)

  function OpenSets(w: World): map<nat, set<nat>> {
    map c | c in w.conns && !w.conns[c].phase.Closed? :: w.conns[c].sessions
  }

  function TableOf(w: World): Table {
    Table(w.shared.next, w.shared.active, OpenSets(w), w.log)
  }

  /** What a step of the world does to the session table. */
  datatype Change =
    | Keep(events: seq<Event>)
    | Connect(conn: nat)
    | Issue(conn: nat)
    | Withdraw(conn: nat, handle: nat)
    | Disconnect(conn: nat)

  ghost predicate Possible(t: Table, change: Change) {
    match change
    case Keep(events) => forall k :: 0 <= k < |events| ==> events[k].Written?
    case Connect(c) => c !in t.sets
    case Issue(c) => c in t.sets
    case Withdraw(c, _) => c in t.sets
    case Disconnect(c) => c in t.sets
  }

  ghost function Apply(t: Table, change: Change): Table
    requires Possible(t, change)
  {
    match change
    case Keep(events) => t.(log := t.log + events)
    case Connect(c) => t.(sets := t.sets[c := {}])
    case Issue(c) =>
      Table(t.next + 1, t.active + {t.next}, t.sets[c := t.sets[c] + {t.next}], t.log + [Issued(c, t.next)])
    case Withdraw(c, h) => Table(t.next, t.active - {h}, t.sets[c := t.sets[c] - {h}], t.log + [Unregistered(h)])
    case Disconnect(c) => Table(t.next, t.active - t.sets[c], t.sets - {c}, t.log + [Disconnected(c)])
  }

  ghost function ChangeOf(cfg: Config, w: World, step: Step): Change
    requires ValidConfig(cfg)
  {
    if !Enabled(w, step) then Keep([])
    else
      match step
      case Open(c) => Connect(c)
      case Dispatch(c) =>
        var f := FirstFrame(w.conns[c].buffer);
        if IsRegistration(f) then Issue(c)
        else if IsUnregistration(f) then Withdraw(c, f.session)
        else Keep([])
      case RunCip(c) => Keep(CipEvents(w.shared.assemblies, w.conns[c].phase.frame))
      case Close(c) => Disconnect(c)
      case Receive(_, _) => Keep([])
      case ApiWrite(i, data) => Keep([Written(i, data, true)])
  }

  lemma DispatchChanges(cfg: Config, w: World, c: nat)
    requires ValidConfig(cfg) && Enabled(w, Dispatch(c))
    ensures var change := ChangeOf(cfg, w, Dispatch(c));
            Possible(TableOf(w), change) && TableOf(Next(cfg, w, Dispatch(c))) == Apply(TableOf(w), change)
  {
    hide BuildReply, FirstFrame, AfterFirst, Complete, ListIdentityPayload, RegistersSession, Settle;
    var w', change := Next(cfg, w, Dispatch(c)), ChangeOf(cfg, w, Dispatch(c));
    var k := w.conns[c];
    match Admit(cfg, w.shared, k.sessions, FirstFrame(k.buffer)) {
      case Settled(reply, _, sessions) => SettleKeepsSessions(Taken(k).(sessions := sessions), reply);
      case Admitted =>
    }
    assert OpenSets(w') == Apply(TableOf(w), change).sets;
  }

  /** Every step of every interleaving is one of the five changes of the session table. */
  lemma StepChanges(cfg: Config, w: World, step: Step)
    requires ValidConfig(cfg)
    ensures var change := ChangeOf(cfg, w, step);
            Possible(TableOf(w), change) && TableOf(Next(cfg, w, step)) == Apply(TableOf(w), change)
  {
    hide RunSendRr, CipEvents, DispatchStep, Settle, Complete, FirstFrame, AfterFirst;
    if step.Dispatch? && Enabled(w, step) {
      DispatchChanges(cfg, w, step.conn);
    } else {
      if step.RunCip? && Enabled(w, step) {
        CipEventsAreWrites(w.shared.assemblies, w.conns[step.conn].phase.frame);
        var k := w.conns[step.conn];
        SettleKeepsSessions(k, RunSendRr(cfg, w.shared.assemblies, k.phase.frame).reply);
      }
      assert OpenSets(Next(cfg, w, step)) == Apply(TableOf(w), ChangeOf(cfg, w, step)).sets;
    }
  }

  lemma CipEventsAreWrites(store: Store, f: Frame)
    ensures forall k :: 0 <= k < |CipEvents(store, f)| ==> CipEvents(store, f)[k].Written?
  {
  }

  lemma SettleKeepsSessions(k: Conn, reply: Reply)
    ensures Settle(k, reply).sessions == k.sessions && !Settle(k, reply).phase.Closed?
  {
  }

  // ---------------------------------------------------------------- invariant

  ghost predicate Invariant(t: Table) {
    && t.next >= 1
    && IssuesIncrease(t.log)
    && IssuedBelow(t.log, t.next)
    && (forall c, h :: c in t.sets && h in t.sets[c] ==> Issued(c, h) in t.log)
    && (forall c, h :: Granted(t.log, h, c) ==> c in t.sets && h in t.sets[c] && h in t.active)
    && (forall h :: h in t.active ==> exists c :: Granted(t.log, h, c))
  }

  lemma {:induction false} GrantedKeeps(log: seq<Event>, events: seq<Event>, h: nat, c: nat)
    requires forall k :: 0 <= k < |events| ==> events[k].Written?
    ensures Granted(log + events, h, c) <==> Granted(log, h, c)
    decreases |events|
  {
    if events == [] {
      assert log + events == log;
    } else {
      var n := |events| - 1;
      assert log + events == (log + events[..n]) + [events[n]];
      GrantedAppend(log + events[..n], events[n], h, c);
      GrantedKeeps(log, events[..n], h, c);
    }
  }

  lemma GrantedIsIssued(log: seq<Event>, h: nat, c: nat)
    requires Granted(log, h, c)
    ensures Issued(c, h) in log
  {
  }

  lemma KeepPreserves(t: Table, events: seq<Event>)
    requires Invariant(t) && Possible(t, Keep(events))
    ensures Invariant(Apply(t, Keep(events)))
  {
    var log' := t.log + events;
    forall h, c ensures Granted(log', h, c) <==> Granted(t.log, h, c) {
      GrantedKeeps(t.log, events, h, c);
    }
  }

  lemma OneIssuer(log: seq<Event>, h: nat, c: nat, d: nat)
    requires IssuesIncrease(log) && Issued(c, h) in log && Issued(d, h) in log
    ensures c == d
  {
  }

  /** The grants after an appended event, for all handles and connections at once. */
  lemma GrantsAfter(log: seq<Event>, e: Event)
    ensures forall h, c ::
              (Granted(log + [e], h, c)
               <==> e == Issued(c, h) || (Granted(log, h, c) && e != Unregistered(h) && e != Disconnected(c)))
    ensures forall h, c :: Granted(log, h, c) ==> Issued(c, h) in log
    ensures e in log + [e] && forall x :: x in log ==> x in log + [e]
  {
    forall h, c {
      GrantedAppend(log, e, h, c);
    }
  }

  lemma IssuePreserves(t: Table, c: nat)
    requires Invariant(t) && c in t.sets
    ensures Invariant(Apply(t, Issue(c)))
  {
    hide Granted;
    var t' := Apply(t, Issue(c));
    GrantsAfter(t.log, Issued(c, t.next));
    forall h | h in t'.active ensures exists d :: Granted(t'.log, h, d) {
      if h == t.next {
        assert Granted(t'.log, h, c);
      } else {
        var d :| Granted(t.log, h, d);
        assert Granted(t'.log, h, d);
      }
    }
  }

  lemma WithdrawPreserves(t: Table, c: nat, handle: nat)
    requires Invariant(t) && c in t.sets
    ensures Invariant(Apply(t, Withdraw(c, handle)))
  {
    hide Granted;
    var t' := Apply(t, Withdraw(c, handle));
    GrantsAfter(t.log, Unregistered(handle));
    forall h | h in t'.active ensures exists d :: Granted(t'.log, h, d) {
      var d :| Granted(t.log, h, d);
      assert Granted(t'.log, h, d);
    }
  }

  lemma DisconnectPreserves(t: Table, c: nat)
    requires Invariant(t) && c in t.sets
    ensures Invariant(Apply(t, Disconnect(c)))
  {
    hide Granted;
    var t' := Apply(t, Disconnect(c));
    GrantsAfter(t.log, Disconnected(c));
    forall h | h in t'.active ensures exists d :: Granted(t'.log, h, d) {
      var d :| Granted(t.log, h, d);
      assert Granted(t'.log, h, d);
    }
    forall d, h | Granted(t'.log, h, d) ensures h in t'.active {
      if h in t.sets[c] {
        OneIssuer(t.log, h, c, d);
      }
    }
  }

  lemma ChangePreserves(t: Table, change: Change)
    requires Invariant(t) && Possible(t, change)
    ensures Invariant(Apply(t, change))
  {
    match change {
      case Keep(events) => KeepPreserves(t, events);
      case Connect(c) =>
      case Issue(c) => IssuePreserves(t, c);
      case Withdraw(c, h) => WithdrawPreserves(t, c, h);
      case Disconnect(c) => DisconnectPreserves(t, c);
    }
  }

  // ---------------------------------------------------------------- every run

  lemma {:induction false} RunKeepsTable(cfg: Config, steps: seq<Step>)
    requires ValidConfig(cfg)
    ensures Invariant(TableOf(Run(cfg, steps)))
    decreases |steps|
  {
    if steps == [] {
      assert Run(cfg, steps).log == [];
    } else {
      hide Apply, Possible, ChangeOf, Invariant, TableOf, Next;
      var n := |steps| - 1;
      var w := Run(cfg, steps[..n]);
      RunKeepsTable(cfg, steps[..n]);
      StepChanges(cfg, w, steps[n]);
      ChangePreserves(TableOf(w), ChangeOf(cfg, w, steps[n]));
    }
  }

  /**
   * The session table after every run. A handle in a connection's set is active exactly as long as
   * its grant stands: any connection may unregister it.
   */
  lemma SessionTable(cfg: Config, steps: seq<Step>)
    requires ValidConfig(cfg)
    ensures var w := Run(cfg, steps);
            var open := OpenSets(w);
            && (forall h :: h in w.shared.active ==> 1 <= h < w.shared.next)
            && (forall c, d :: c in open && d in open && c != d ==> open[c] !! open[d])
            && (forall h :: h in w.shared.active ==> exists c :: c in open && h in open[c])
            && (forall c, h :: c in open && h in open[c] ==> (h in w.shared.active <==> Granted(w.log, h, c)))
            && IssuesIncrease(w.log)
  {
    RunKeepsTable(cfg, steps);
    var t := TableOf(Run(cfg, steps));
    forall h | h in t.active ensures 1 <= h < t.next && exists c :: c in t.sets && h in t.sets[c] {
      var c :| Granted(t.log, h, c);
      GrantedIsIssued(t.log, h, c);
    }
    forall c, d, h | c in t.sets && d in t.sets && h in t.sets[c] && h in t.sets[d] ensures c == d {
      OneIssuer(t.log, h, c, d);
    }
  }

  /**
   * The session check told from the history: a SendRRData goes on to its CIP action exactly when
   * its handle was issued to some connection, not unregistered since by anybody, and that
   * connection has not closed since.
   */
  lemma SessionCheck(cfg: Config, steps: seq<Step>, c: nat)
    requires ValidConfig(cfg)
    requires Enabled(Run(cfg, steps), Dispatch(c))
    requires IsSendRr(FirstFrame(Run(cfg, steps).conns[c].buffer))
    ensures var w, w' := Run(cfg, steps), Run(cfg, steps + [Dispatch(c)]);
            c in w'.conns
            && (w'.conns[c].phase.Awaiting?
                <==> exists d :: Granted(w.log, FirstFrame(w.conns[c].buffer).session, d))
  {
    hide BuildReply, FirstFrame, AfterFirst, Complete, Granted, ListIdentityPayload;
    RunKeepsTable(cfg, steps);
    var w := Run(cfg, steps);
    var f := FirstFrame(w.conns[c].buffer);
    assert (steps + [Dispatch(c)])[..|steps|] == steps;
    assert Run(cfg, steps + [Dispatch(c)]) == Next(cfg, w, Dispatch(c));
    assert f.session in w.shared.active <==> exists d :: Granted(w.log, f.session, d);
  }

  lemma AwaitingIsActive(cfg: Config, w: World, c: nat)
    requires ValidConfig(cfg) && Enabled(w, Dispatch(c)) && Next(cfg, w, Dispatch(c)).conns[c].phase.Awaiting?
    ensures Next(cfg, w, Dispatch(c)).conns[c].phase.frame == FirstFrame(w.conns[c].buffer)
    ensures FirstFrame(w.conns[c].buffer).session in w.shared.active
  {
  }

  /** Nothing but the connection's own dispatch makes it wait. */
  lemma AwaitingStays(cfg: Config, w: World, step: Step, c: nat)
    requires ValidConfig(cfg) && !(step == Dispatch(c) && Enabled(w, step))
    requires c in Next(cfg, w, step).conns && Next(cfg, w, step).conns[c].phase.Awaiting?
    ensures c in w.conns && w.conns[c].phase == Next(cfg, w, step).conns[c].phase
  {
  }

  /**
   * Whoever waits for its CIP action was admitted by a session that was granted at its check: `n` is
   * the step that took the waiting frame.
   */
  lemma {:induction false} AwaitingWasGranted(cfg: Config, steps: seq<Step>, c: nat) returns (n: nat)
    requires ValidConfig(cfg)
    requires c in Run(cfg, steps).conns && Run(cfg, steps).conns[c].phase.Awaiting?
    ensures n < |steps| && steps[n] == Dispatch(c) && Enabled(Run(cfg, steps[..n]), Dispatch(c))
    ensures FirstFrame(Run(cfg, steps[..n]).conns[c].buffer) == Run(cfg, steps).conns[c].phase.frame
    ensures exists d :: Granted(Run(cfg, steps[..n]).log, Run(cfg, steps).conns[c].phase.frame.session, d)
    decreases |steps|
  {
    hide Granted, Next, Enabled, FirstFrame;
    n := |steps| - 1;
    var w := Run(cfg, steps[..n]);
    if steps[n] == Dispatch(c) && Enabled(w, Dispatch(c)) {
      RunKeepsTable(cfg, steps[..n]);
      AwaitingIsActive(cfg, w, c);
    } else {
      AwaitingStays(cfg, w, steps[n], c);
      n := AwaitingWasGranted(cfg, steps[..n], c);
      assert steps[..|steps| - 1][..n] == steps[..n];
    }
  }

  /** At its action the session of a waiting SendRRData is active exactly if its grant still stands. */
  lemma SessionAtAction(cfg: Config, steps: seq<Step>, c: nat)
    requires ValidConfig(cfg) && Enabled(Run(cfg, steps), RunCip(c))
    ensures var w := Run(cfg, steps);
            var session := w.conns[c].phase.frame.session;
            session in w.shared.active <==> exists d :: Granted(w.log, session, d)
  {
    RunKeepsTable(cfg, steps);
    assert Invariant(TableOf(Run(cfg, steps)));
  }

  /**
   * The check is not held until the action: steps of other connections, such as one that
   * unregisters the session, leave a waiting connection as it is.
   */
  lemma OthersDoNotDisturb(cfg: Config, w: World, step: Step, c: nat)
    requires ValidConfig(cfg) && c in w.conns
    requires step.ApiWrite? || step.conn != c
    ensures c in Next(cfg, w, step).conns && Next(cfg, w, step).conns[c] == w.conns[c]
  {
  }

  /**
   * So the action may run after its session has ended: another connection unregisters the session
   * of a waiting SendRRData, and the action still has the effect it would have had before.
   */
  lemma ActionOutlivesSession(cfg: Config, w: World, c: nat, d: nat)
    requires ValidConfig(cfg) && c != d && Enabled(w, RunCip(c)) && Enabled(w, Dispatch(d))
    requires IsUnregistration(FirstFrame(w.conns[d].buffer))
    requires FirstFrame(w.conns[d].buffer).session == w.conns[c].phase.frame.session
    ensures var f, later := w.conns[c].phase.frame, Next(cfg, w, Dispatch(d));
            && f.session !in later.shared.active
            && Enabled(later, RunCip(c))
            && Next(cfg, later, RunCip(c)).shared.assemblies == Next(cfg, w, RunCip(c)).shared.assemblies
            && Next(cfg, later, RunCip(c)).conns[c] == Next(cfg, w, RunCip(c)).conns[c]
  {
  }

  lemma StepNeverRevives(cfg: Config, w: World, step: Step)
    requires ValidConfig(cfg)
    ensures w.shared.next <= Next(cfg, w, step).shared.next
    ensures forall h :: h < w.shared.next && h !in w.shared.active ==> h !in Next(cfg, w, step).shared.active
  {
    StepChanges(cfg, w, step);
    hide Next, ChangeOf;
    assert TableOf(Next(cfg, w, step)).active == Next(cfg, w, step).shared.active;
  }

  /** A handle that was issued and is no longer active stays inactive for the rest of the run. */
  lemma {:induction false} NeverRevived(cfg: Config, steps: seq<Step>, later: seq<Step>, h: nat)
    requires ValidConfig(cfg)
    requires h < Run(cfg, steps).shared.next && h !in Run(cfg, steps).shared.active
    ensures h < Run(cfg, steps + later).shared.next && h !in Run(cfg, steps + later).shared.active
    decreases |later|
  {
    if later == [] {
      assert steps + later == steps;
    } else {
      var n := |later| - 1;
      assert (steps + later)[..|steps + later| - 1] == steps + later[..n];
      NeverRevived(cfg, steps, later[..n], h);
      hide Next;
      StepNeverRevives(cfg, Run(cfg, steps + later[..n]), later[n]);
    }
  }
}
