/**
 * Any number of connections over one server, interleaved at lock granularity. A connection takes a
 * frame off its buffer and handles it in one step, except that an admitted SendRRData runs its CIP
 * action in a later step: the session check and the assembly access hold different locks.
 */
module EnipRuns {
  import opened Bytes
  import opened EnipFrames
  import opened EnipCpf
  import opened EnipObjects
  import opened EnipProtocol

  /** `Failed` is a handler left by an exception, which still has to release its sessions. */
  datatype Phase = Idle | Awaiting(frame: FitFrame) | Failed | Closed

  /**
   * One connection. `received` and `taken` only record history: all bytes received and all frames
   * taken off the buffer.
   */
  datatype Conn = Conn(buffer: seq<Byte>, sessions: set<nat>, output: seq<Byte>, phase: Phase,
                       received: seq<Byte>, taken: seq<Frame>)

  /** What happened to sessions and assemblies, in order. */
  datatype Event =
    | Issued(conn: nat, handle: nat)
    | Unregistered(session: nat)
    | Disconnected(conn: nat)
    | Written(instance: nat, data: seq<Byte>, byApi: bool)

  datatype World = World(shared: Shared, conns: map<nat, Conn>, log: seq<Event>)

  datatype Step =
    | Open(conn: nat)
    | Receive(conn: nat, chunk: seq<Byte>)
    | Dispatch(conn: nat)
    | RunCip(conn: nat)
    | Close(conn: nat)
    | ApiWrite(instance: nat, data: seq<Byte>)

  const FRESH := Conn([], {}, [], Idle, [], [])

  function Start(cfg: Config): World {
    World(Initial(cfg), map[], [])
  }

  predicate Enabled(w: World, step: Step) {
    match step
    case Open(c) => c !in w.conns
    case Receive(c, chunk) => c in w.conns && w.conns[c].phase.Idle? && !Complete(w.conns[c].buffer) && chunk != []
    case Dispatch(c) => c in w.conns && w.conns[c].phase.Idle? && Complete(w.conns[c].buffer)
    case RunCip(c) => c in w.conns && w.conns[c].phase.Awaiting?
    case Close(c) => c in w.conns && (w.conns[c].phase.Idle? || w.conns[c].phase.Failed?)
    case ApiWrite(_, _) => true
  }

  /** A handler that got its reply sends it, or fails. */
  function Settle(k: Conn, reply: Reply): Conn {
    match reply
    case NoReply => k.(phase := Idle)
    case Send(bytes) => k.(phase := Idle, output := k.output + bytes)
    case Raise => k.(phase := Failed)
  }

  function SessionEvents(c: nat, next: nat, f: Frame): seq<Event> {
    if IsRegistration(f) then [Issued(c, next)]
    else if IsUnregistration(f) then [Unregistered(f.session)]
    else []
  }

  /** The wire write an admitted SendRRData carries out, if it succeeds. */
  function CipEvents(store: Store, f: Frame): seq<Event> {
    match SelectRequest(f.payload)
    case None => []
    case Some(request) =>
      match AsWrite(request)
      case Some(Access(i, data)) => if i in store then [Written(i, data, false)] else []
      case None => []
  }

  function Taken(k: Conn): Conn
    requires Complete(k.buffer)
  {
    k.(buffer := AfterFirst(k.buffer), taken := k.taken + [FirstFrame(k.buffer)])
  }

  function DispatchStep(cfg: Config, w: World, c: nat): World
    requires ValidConfig(cfg) && Enabled(w, Dispatch(c))
  {
    var k, f := w.conns[c], FirstFrame(w.conns[c].buffer);
    match Admit(cfg, w.shared, k.sessions, f)
    case Admitted => w.(conns := w.conns[c := Taken(k).(phase := Awaiting(f))])
    case Settled(reply, shared, sessions) =>
      World(shared, w.conns[c := Settle(Taken(k).(sessions := sessions), reply)],
            w.log + SessionEvents(c, w.shared.next, f))
  }

  function CipStep(cfg: Config, w: World, c: nat): World
    requires ValidConfig(cfg) && Enabled(w, RunCip(c))
  {
    var f := w.conns[c].phase.frame;
    var cip := RunSendRr(cfg, w.shared.assemblies, f);
    World(w.shared.(assemblies := cip.assemblies), w.conns[c := Settle(w.conns[c], cip.reply)],
          w.log + CipEvents(w.shared.assemblies, f))
  }

  /** A step that is not enabled does nothing. */
  function Next(cfg: Config, w: World, step: Step): World
    requires ValidConfig(cfg)
  {
    if !Enabled(w, step) then w
    else
      match step
      case Open(c) => w.(conns := w.conns[c := FRESH])
      case Receive(c, chunk) =>
        var k := w.conns[c];
        w.(conns := w.conns[c := k.(buffer := k.buffer + chunk, received := k.received + chunk)])
      case Dispatch(c) => DispatchStep(cfg, w, c)
      case RunCip(c) => CipStep(cfg, w, c)
      case Close(c) =>
        var k := w.conns[c];
        World(Release(w.shared, k.sessions), w.conns[c := k.(phase := Closed, sessions := {})],
              w.log + [Disconnected(c)])
      case ApiWrite(i, data) =>
        w.(shared := w.shared.(assemblies := w.shared.assemblies[i := data]),
           log := w.log + [Written(i, data, true)])
  }

  /** The world after a run: every interleaving of every number of connections is some `steps`. */
  function Run(cfg: Config, steps: seq<Step>): World
    requires ValidConfig(cfg)
  {
    if steps == [] then Start(cfg)
    else Next(cfg, Run(cfg, steps[..|steps| - 1]), steps[|steps| - 1])
  }

  lemma RunSnoc(cfg: Config, steps: seq<Step>, step: Step)
    requires ValidConfig(cfg)
    ensures Run(cfg, steps + [step]) == Next(cfg, Run(cfg, steps), step)
  {
    assert (steps + [step])[..|steps|] == steps;
  }

  /** With no other connection in between, the two steps of a frame are the server's frame handler. */
  lemma StepsRefineHandler(cfg: Config, w: World, c: nat)
    requires ValidConfig(cfg) && Enabled(w, Dispatch(c))
    ensures var k, f := w.conns[c], FirstFrame(w.conns[c].buffer);
            var e := HandleFrame(cfg, w.shared, k.sessions, f);
            var w1 := Next(cfg, w, Dispatch(c));
            var w2 := if w1.conns[c].phase.Awaiting? then Next(cfg, w1, RunCip(c)) else w1;
            w2.shared == e.shared && w2.conns[c] == Settle(Taken(k).(sessions := e.sessions), e.reply)
  {
  }
}
