/** The assembly store over whole runs: last write wins, and no reply ever overflows a length field. */
module EnipAssemblies {
  import opened Wrappers
  import opened Bytes
  import opened EnipFrames
  import opened EnipPath
  import opened EnipCpf
  import opened EnipObjects
  import opened EnipProtocol
  import opened EnipRuns

  // ---------------------------------------------------------------- last write wins

  /** The data of the last successful write of an instance, by a request or by the API. */
  function LastWritten(log: seq<Event>, i: nat): Option<seq<Byte>> {
    if log == [] then None
    else
      var e := log[|log| - 1];
      if e.Written? && e.instance == i then Some(e.data) else LastWritten(log[..|log| - 1], i)
  }

  function Lookup(store: Store, i: nat): Option<seq<Byte>> {
    if i in store then Some(store[i]) else None
  }

  /** What an instance should hold: its last written data, else its configured data. */
  function Expected(cfg: Config, log: seq<Event>, i: nat): Option<seq<Byte>> {
    var w := LastWritten(log, i);
    if w.Some? then w else Lookup(cfg.assemblies, i)
  }

  predicate ApiWrote(log: seq<Event>, i: nat) {
    exists k :: 0 <= k < |log| && log[k].Written? && log[k].instance == i && log[k].byApi
  }

  /** Only configuration and API make instances exist. */
  ghost predicate StoreInvariant(cfg: Config, store: Store, log: seq<Event>) {
    && (forall i :: Lookup(store, i) == Expected(cfg, log, i))
    && (forall i :: i in store <==> i in cfg.assemblies || ApiWrote(log, i))
  }

  /** The store after one more event. */
  function Replay(store: Store, e: Event): Store {
    if e.Written? then store[e.instance := e.data] else store
  }

  lemma ReplayKeeps(cfg: Config, store: Store, log: seq<Event>, e: Event)
    requires StoreInvariant(cfg, store, log)
    requires e.Written? && !e.byApi ==> e.instance in store
    ensures StoreInvariant(cfg, Replay(store, e), log + [e])
  {
    var store', log' := Replay(store, e), log + [e];
    assert log'[..|log|] == log && log'[|log|] == e;
    forall i ensures Lookup(store', i) == Expected(cfg, log', i) {
      assert LastWritten(log', i) == if e.Written? && e.instance == i then Some(e.data) else LastWritten(log, i);
      assert Lookup(store, i) == Expected(cfg, log, i);
    }
    forall i ensures i in store' <==> i in cfg.assemblies || ApiWrote(log', i) {
      if ApiWrote(log, i) {
        var k :| 0 <= k < |log| && log[k].Written? && log[k].instance == i && log[k].byApi;
        assert log'[k] == log[k];
      }
    }
  }

  /** A step appends at most one event, and its effect on the store is to replay that event. */
  lemma StepReplays(cfg: Config, w: World, step: Step) returns (events: seq<Event>)
    requires ValidConfig(cfg)
    ensures |events| <= 1 && Next(cfg, w, step).log == w.log + events
    ensures Next(cfg, w, step).shared.assemblies
            == if events == [] then w.shared.assemblies else Replay(w.shared.assemblies, events[0])
    ensures events != [] && events[0].Written? && !events[0].byApi ==> events[0].instance in w.shared.assemblies
  {
    hide Complete, FirstFrame, AfterFirst, BuildReply, ListIdentityPayload, RunSendRr, Settle, CipEvents;
    var w' := Next(cfg, w, step);
    assert w.log <= w'.log by {
      assert w.log + [] == w.log;
    }
    events := w'.log[|w.log|..];
    if step.RunCip? && Enabled(w, step) {
      CipReplays(cfg, w.shared.assemblies, w.conns[step.conn].phase.frame);
    }
  }

  lemma CipReplays(cfg: Config, store: Store, f: Frame)
    requires |f.context| == 8
    ensures var events, after := CipEvents(store, f), RunSendRr(cfg, store, f).assemblies;
            && |events| <= 1
            && after == (if events == [] then store else Replay(store, events[0]))
            && (events != [] ==> events[0].Written? && !events[0].byApi && events[0].instance in store)
  {
    hide SelectRequest, HandleCip, AsWrite, BuildReply, EncodeUnconnected;
    match SelectRequest(f.payload) {
      case None =>
      case Some(request) =>
        if HandleCip(cfg.identity, store, request).Responding? {
          StoreEffect(cfg.identity, store, request);
        } else {
          RaisingWritesNothing(cfg.identity, store, request);
        }
    }
  }

  lemma RaisingWritesNothing(id: Identity, store: Store, request: seq<Byte>)
    requires HandleCip(id, store, request).Raising?
    ensures AsWrite(request).None?
  {
  }

  lemma {:induction false} RunKeepsStore(cfg: Config, steps: seq<Step>)
    requires ValidConfig(cfg)
    ensures StoreInvariant(cfg, Run(cfg, steps).shared.assemblies, Run(cfg, steps).log)
    decreases |steps|
  {
    hide Next;
    if steps != [] {
      hide StoreInvariant;
      var w := Run(cfg, steps[..|steps| - 1]);
      RunKeepsStore(cfg, steps[..|steps| - 1]);
      var events := StepReplays(cfg, w, steps[|steps| - 1]);
      if events == [] {
        assert w.log + events == w.log;
      } else {
        assert events == [events[0]];
        ReplayKeeps(cfg, w.shared.assemblies, w.log, events[0]);
      }
    }
  }

  /** The largest assembly whose read reply still fits the 16-bit length fields. */
  const MAX_ASSEMBLY := 65515

  /** The CIP response to a read, octet by octet: the data, or that the destination is unknown. */
  function ReadResponse(service: Byte, data: Option<seq<Byte>>): seq<Byte>
    requires service < 0x80
  {
    match data
    case Some(bytes) => [0x80 + service, 0, 0, 0] + bytes
    case None => [0x80 + service, 0, 5, 0]
  }

  /** The reply to a read, and exactly when it cannot be packed. */
  lemma ReadReplies(cfg: Config, store: Store, f: Frame, request: seq<Byte>, i: nat)
    requires Fits(f) && SelectRequest(f.payload) == Some(request) && AsRead(request) == Some(i)
    ensures |f.payload| >= CPF_HEADER_SIZE && |request| >= 2 && request[0] in {0x01, 0x0E}
    ensures var e := RunSendRr(cfg, store, f);
            && e.assemblies == store
            && (e.reply.Raise? <==> i in store && |store[i]| > MAX_ASSEMBLY)
            && (!e.reply.Raise? ==>
                  && |ReadResponse(request[0], Lookup(store, i))| < 0x1_0000
                  && |EncodeUnconnected(TimeoutOf(f.payload), ReadResponse(request[0], Lookup(store, i)))| < 0x1_0000
                  && e.reply == Send(EncodeFrame(Frame(f.command, f.session, f.context, 0,
                                 EncodeUnconnected(TimeoutOf(f.payload), ReadResponse(request[0], Lookup(store, i)))),
                                                 ENCAP_SUCCESS)))
  {
    hide HandleCip, SelectFrom, EncodeFrame;
    ReadAnswers(cfg.identity, store, request);
  }

  /**
   * Last write wins through the full stack: whenever a read of an assembly reaches its CIP action,
   * its reply carries the bytes of the last successful write in the history, else the configured
   * ones, else that the destination is unknown. Nothing but the connection's output changes.
   */
  lemma ReadsLastWrite(cfg: Config, steps: seq<Step>, c: nat, request: seq<Byte>, i: nat)
    requires ValidConfig(cfg) && Enabled(Run(cfg, steps), RunCip(c))
    requires SelectRequest(Run(cfg, steps).conns[c].phase.frame.payload) == Some(request)
    requires AsRead(request) == Some(i)
    ensures |request| >= 2 && request[0] in {0x01, 0x0E}
    ensures var w, w' := Run(cfg, steps), Run(cfg, steps + [RunCip(c)]);
            var f := w.conns[c].phase.frame;
            var response := ReadResponse(request[0], Expected(cfg, w.log, i));
            && w'.shared == w.shared && w'.log == w.log && c in w'.conns
            && (w'.conns[c].phase.Failed? <==> |response| > MAX_ASSEMBLY + 4)
            && (|response| <= MAX_ASSEMBLY + 4 ==>
                  && |f.payload| >= CPF_HEADER_SIZE
                  && |EncodeUnconnected(TimeoutOf(f.payload), response)| < 0x1_0000
                  && w'.conns[c].output == w.conns[c].output
                     + EncodeFrame(Frame(f.command, f.session, f.context, 0,
                                         EncodeUnconnected(TimeoutOf(f.payload), response)), ENCAP_SUCCESS))
  {
    hide SelectRequest, AsRead, RunSendRr, EncodeFrame, EncodeUnconnected, DispatchStep, FirstFrame, Complete;
    var w := Run(cfg, steps);
    var f := w.conns[c].phase.frame;
    assert (steps + [RunCip(c)])[..|steps|] == steps;
    RunKeepsStore(cfg, steps);
    assert Lookup(w.shared.assemblies, i) == Expected(cfg, w.log, i);
    ReadReplies(cfg, w.shared.assemblies, f, request, i);
    ReadLogsNothing(w.shared.assemblies, f, request);
    assert w.log + [] == w.log;
  }

  lemma ReadLogsNothing(store: Store, f: Frame, request: seq<Byte>)
    requires SelectRequest(f.payload) == Some(request) && AsRead(request).Some?
    ensures CipEvents(store, f) == []
  {
  }

  /** After every run the store is the configuration overwritten by the history. */
  lemma StoreIsHistory(cfg: Config, steps: seq<Step>, i: nat)
    requires ValidConfig(cfg)
    ensures var w := Run(cfg, steps);
            && Lookup(w.shared.assemblies, i) == Expected(cfg, w.log, i)
            && (i in w.shared.assemblies <==> i in cfg.assemblies || ApiWrote(w.log, i))
  {
    RunKeepsStore(cfg, steps);
  }

  // ---------------------------------------------------------------- sizes

  predicate SizesFit(store: Store) {
    forall i :: i in store ==> |store[i]| <= MAX_ASSEMBLY
  }

  /** A wire write spends at least twenty bytes of its payload before the data. */
  lemma WriteIsShort(payload: seq<Byte>, request: seq<Byte>, w: Access)
    requires SelectRequest(payload) == Some(request) && AsWrite(request) == Some(w)
    ensures |w.data| + 20 <= |payload|
  {
    hide ParseFrom, SelectFrom;
    SelectedLengthFrom(payload, CPF_HEADER_SIZE, UnpackU16Le(payload, 6), None);
    var pathEnd := 2 + 2 * request[1] as int;
    AttributePathLength(request[2..pathEnd]);
  }

  lemma IdentityAnswersAreShort(id: Identity, store: Store, c: nat, i: nat, attribute: nat)
    requires NameFits(id) && SizesFit(store)
    ensures GetAttribute(id, store, c, i, attribute).Answer?
    ensures |GetAttribute(id, store, c, i, attribute).data| <= MAX_ASSEMBLY
    ensures GetAttributesAll(id, store, c, i).Answer?
    ensures |GetAttributesAll(id, store, c, i).data| <= MAX_ASSEMBLY
  {
  }

  lemma ResponseIsShort(id: Identity, store: Store, request: seq<Byte>)
    requires NameFits(id) && SizesFit(store)
    ensures HandleCip(id, store, request).Responding?
    ensures |HandleCip(id, store, request).response| <= MAX_ASSEMBLY + 4
  {
    hide GetAttribute, GetAttributesAll, SetAttribute, SetAttributeStatus, SizesFit, NameFits, ParsePath;
    match DecodeRequest(request) {
      case Call(_, Target(c, i, attribute), _) =>
        IdentityAnswersAreShort(id, store, c, i, attribute.Or(0));
      case _ =>
    }
  }

  lemma CipStaysWithinSizes(cfg: Config, store: Store, f: Frame)
    requires Fits(f) && NameFits(cfg.identity) && SizesFit(store)
    ensures RunSendRr(cfg, store, f).reply.Send? && SizesFit(RunSendRr(cfg, store, f).assemblies)
  {
    hide SelectFrom, HandleCip, EncodeFrame, NameFits, DecodeRequest;
    match SelectRequest(f.payload) {
      case None =>
      case Some(request) =>
        ResponseIsShort(cfg.identity, store, request);
        StoreEffect(cfg.identity, store, request);
        if AsWrite(request).Some? {
          WriteIsShort(f.payload, request, AsWrite(request).value);
        }
    }
  }

  lemma AdmitStaysWithinSizes(cfg: Config, shared: Shared, sessions: set<nat>, f: Frame)
    requires ValidConfig(cfg) && Fits(f) && NameFits(cfg.identity)
    requires Admit(cfg, shared, sessions, f).Settled? && Admit(cfg, shared, sessions, f).shared.next <= 0x1_0000_0000
    ensures !Admit(cfg, shared, sessions, f).reply.Raise?
    ensures Admit(cfg, shared, sessions, f).shared.assemblies == shared.assemblies
  {
  }

  /** Handles do not wrap: a granted registration fails exactly when the next one exceeds 32 bits. */
  lemma RegistrationFailsExactly(cfg: Config, shared: Shared, sessions: set<nat>, f: Frame)
    requires ValidConfig(cfg) && Fits(f) && IsRegistration(f)
    ensures HandleFrame(cfg, shared, sessions, f).reply.Raise? <==> shared.next >= 0x1_0000_0000
    ensures HandleFrame(cfg, shared, sessions, f).sessions == sessions + {shared.next}
  {
  }

  ghost predicate SizesInvariant(w: World) {
    SizesFit(w.shared.assemblies) && forall c :: c in w.conns ==> !w.conns[c].phase.Failed?
  }

  ghost predicate ApiStaysWithinSizes(steps: seq<Step>) {
    forall k :: 0 <= k < |steps| && steps[k].ApiWrite? ==> |steps[k].data| <= MAX_ASSEMBLY
  }

  lemma StepKeepsSizes(cfg: Config, w: World, step: Step)
    requires ValidConfig(cfg) && NameFits(cfg.identity) && SizesInvariant(w)
    requires step.ApiWrite? ==> |step.data| <= MAX_ASSEMBLY
    requires Next(cfg, w, step).shared.next <= 0x1_0000_0000
    ensures SizesInvariant(Next(cfg, w, step))
    ensures w.shared.next <= Next(cfg, w, step).shared.next
  {
    hide Admit, RunSendRr, FirstFrame, AfterFirst, Complete, CipEvents, SessionEvents, NameFits;
    if Enabled(w, step) {
      match step {
        case Dispatch(c) =>
          var k := w.conns[c];
          AdmitKeepsNext(cfg, w.shared, k.sessions, FirstFrame(k.buffer));
          if Admit(cfg, w.shared, k.sessions, FirstFrame(k.buffer)).Settled? {
            AdmitStaysWithinSizes(cfg, w.shared, k.sessions, FirstFrame(k.buffer));
          }
        case RunCip(c) => CipStaysWithinSizes(cfg, w.shared.assemblies, w.conns[c].phase.frame);
        case _ =>
      }
    }
  }

  lemma AdmitKeepsNext(cfg: Config, shared: Shared, sessions: set<nat>, f: Frame)
    requires ValidConfig(cfg) && Fits(f)
    ensures Admit(cfg, shared, sessions, f).Settled? ==> shared.next <= Admit(cfg, shared, sessions, f).shared.next
  {
  }

  /**
   * Size closure. When the configured and API-written assemblies have at most 65515 bytes, the
   * product name at most 255, and fewer than 2^32 sessions are registered, then in every run every
   * assembly stays within 65515 bytes and no handler ever fails: every reply fits its length fields.
   */
  lemma {:induction false} NothingOverflows(cfg: Config, steps: seq<Step>)
    requires ValidConfig(cfg) && NameFits(cfg.identity) && SizesFit(cfg.assemblies)
    requires ApiStaysWithinSizes(steps)
    requires Run(cfg, steps).shared.next <= 0x1_0000_0000
    ensures SizesInvariant(Run(cfg, steps))
    decreases |steps|
  {
    hide Next, NameFits, SizesFit;
    if steps != [] {
      var n := |steps| - 1;
      RunNextGrows(cfg, Run(cfg, steps[..n]), steps[n]);
      NothingOverflows(cfg, steps[..n]);
      StepKeepsSizes(cfg, Run(cfg, steps[..n]), steps[n]);
    }
  }

  lemma RunNextGrows(cfg: Config, w: World, step: Step)
    requires ValidConfig(cfg)
    ensures w.shared.next <= Next(cfg, w, step).shared.next
  {
  }
}
