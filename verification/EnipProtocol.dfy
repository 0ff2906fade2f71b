/**
 * The encapsulation commands. Handling one frame is split where the server changes locks: `Admit`
 * is everything up to and including the session check, `RunSendRr` is the CIP action of an
 * admitted SendRRData.
 */
module EnipProtocol {
  import opened Bytes
  import opened EnipFrames
  import opened EnipCpf
  import opened EnipObjects

  const LIST_SERVICES: U16 := 0x0004
  const LIST_IDENTITY: U16 := 0x0063
  const LIST_INTERFACES: U16 := 0x0064
  const REGISTER_SESSION: U16 := 0x0065
  const UNREGISTER_SESSION: U16 := 0x0066
  const SEND_RR_DATA: U16 := 0x006F

  const ENCAP_SUCCESS: U32 := 0x0000
  const INVALID_COMMAND: U32 := 0x0001
  const INCORRECT_DATA: U32 := 0x0003
  const INVALID_SESSION: U32 := 0x0064

  /** `address` is the advertised IPv4 address, the loopback one when the server binds to all. */
  datatype Config = Config(identity: Identity, address: seq<Byte>, port: U16, assemblies: Store)

  predicate ValidConfig(cfg: Config) {
    |cfg.address| == 4
  }

  /** The state that all connections share. */
  datatype Shared = Shared(next: nat, active: set<nat>, assemblies: Store)

  function Initial(cfg: Config): Shared {
    Shared(1, {}, cfg.assemblies)
  }

  /** What handling a frame gives its connection: nothing, bytes to send, or an exception. */
  datatype Reply = NoReply | Send(bytes: seq<Byte>) | Raise

  /** Packing the header raises when a field does not fit. */
  function BuildReply(command: U16, session: nat, context: seq<Byte>, payload: seq<Byte>, status: U32): Reply
    requires |context| == 8
  {
    if |payload| >= 0x1_0000 || session >= 0x1_0000_0000 then Raise
    else Send(EncodeFrame(Frame(command, session, context, 0, payload), status))
  }

  const COMMUNICATIONS: seq<Byte> :=
    [0x43, 0x6F, 0x6D, 0x6D, 0x75, 0x6E, 0x69, 0x63, 0x61, 0x74, 0x69, 0x6F, 0x6E, 0x73, 0, 0]

  const LIST_SERVICES_PAYLOAD: seq<Byte> :=
    PackU16Le(1) + PackU16Le(0x0100) + PackU16Le(20) + PackU16Le(1) + PackU16Le(0x0020) + COMMUNICATIONS

  function ListIdentityItem(cfg: Config): (item: seq<Byte>)
    requires ValidConfig(cfg) && NameFits(cfg.identity)
    ensures |item| == 34 + |cfg.identity.productName|
  {
    var id := cfg.identity;
    PackU16Le(1)
    + (PackU16Be(2) + PackU16Be(cfg.port) + cfg.address + [0, 0, 0, 0, 0, 0, 0, 0])
    + (PackU16Le(id.vendorId) + PackU16Le(id.deviceType) + PackU16Le(id.productCode)
       + [id.revisionMajor, id.revisionMinor] + PackU16Le(id.status) + PackU32Le(id.serialNumber))
    + [|id.productName|] + id.productName + [id.state]
  }

  function ListIdentityPayload(cfg: Config): seq<Byte>
    requires ValidConfig(cfg) && NameFits(cfg.identity)
  {
    var item := ListIdentityItem(cfg);
    PackU16Le(1) + (PackU16Le(0x000C) + PackU16Le(|item|)) + item
  }

  predicate RegistersSession(payload: seq<Byte>) {
    |payload| == 4 && UnpackU16Le(payload, 0) == 1 && UnpackU16Le(payload, 2) == 0
  }

  /** A RegisterSession that the server grants. */
  predicate IsRegistration(f: Frame) {
    f.options == 0 && f.command == REGISTER_SESSION && RegistersSession(f.payload)
  }

  predicate IsUnregistration(f: Frame) {
    f.options == 0 && f.command == UNREGISTER_SESSION
  }

  predicate IsSendRr(f: Frame) {
    f.options == 0 && f.command == SEND_RR_DATA
  }

  /** Either the frame is done with, or its CIP action is still to run. */
  datatype Admission = Admitted | Settled(reply: Reply, shared: Shared, sessions: set<nat>)

  function Admit(cfg: Config, shared: Shared, sessions: set<nat>, f: Frame): Admission
    requires ValidConfig(cfg) && Fits(f)
  {
    if f.options != 0 then
      Settled(BuildReply(f.command, f.session, f.context, [], INCORRECT_DATA), shared, sessions)
    else if f.command == REGISTER_SESSION then
      if !RegistersSession(f.payload) then
        Settled(BuildReply(f.command, 0, f.context, [], INCORRECT_DATA), shared, sessions)
      else
        var handle := shared.next;
        Settled(BuildReply(f.command, handle, f.context, f.payload, ENCAP_SUCCESS),
                shared.(next := handle + 1, active := shared.active + {handle}),
                sessions + {handle})
    else if f.command == UNREGISTER_SESSION then
      Settled(NoReply, shared.(active := shared.active - {f.session}), sessions - {f.session})
    else if f.command == LIST_SERVICES then
      Settled(BuildReply(f.command, 0, f.context, LIST_SERVICES_PAYLOAD, ENCAP_SUCCESS), shared, sessions)
    else if f.command == LIST_IDENTITY then
      if !NameFits(cfg.identity) then Settled(Raise, shared, sessions)
      else Settled(BuildReply(f.command, 0, f.context, ListIdentityPayload(cfg), ENCAP_SUCCESS), shared, sessions)
    else if f.command == LIST_INTERFACES then
      Settled(BuildReply(f.command, 0, f.context, PackU16Le(0), ENCAP_SUCCESS), shared, sessions)
    else if f.command == SEND_RR_DATA then
      if f.session !in shared.active then
        Settled(BuildReply(f.command, f.session, f.context, [], INVALID_SESSION), shared, sessions)
      else Admitted
    else
      Settled(BuildReply(f.command, f.session, f.context, [], INVALID_COMMAND), shared, sessions)
  }

  datatype CipEffect = CipEffect(reply: Reply, assemblies: Store)

  /** The CIP action of an admitted SendRRData and the reply it leads to. */
  function RunSendRr(cfg: Config, assemblies: Store, f: Frame): CipEffect
    requires |f.context| == 8
  {
    match SelectRequest(f.payload)
    case None => CipEffect(BuildReply(f.command, f.session, f.context, [], INCORRECT_DATA), assemblies)
    case Some(request) =>
      match HandleCip(cfg.identity, assemblies, request)
      case Raising => CipEffect(Raise, assemblies)
      case Responding(response, after) =>
        if |response| >= 0x1_0000 then CipEffect(Raise, after)
        else CipEffect(BuildReply(f.command, f.session, f.context,
                                  EncodeUnconnected(TimeoutOf(f.payload), response), ENCAP_SUCCESS), after)
  }

  datatype Effect = Effect(reply: Reply, shared: Shared, sessions: set<nat>)

  /** Handling a frame with no other connection in between. */
  function HandleFrame(cfg: Config, shared: Shared, sessions: set<nat>, f: Frame): Effect
    requires ValidConfig(cfg) && Fits(f)
  {
    match Admit(cfg, shared, sessions, f)
    case Settled(reply, shared', sessions') => Effect(reply, shared', sessions')
    case Admitted =>
      var cip := RunSendRr(cfg, shared.assemblies, f);
      Effect(cip.reply, shared.(assemblies := cip.assemblies), sessions)
  }

  /** What a connection has produced after some frames; it stops at the first exception. */
  datatype Served = Served(output: seq<Byte>, shared: Shared, sessions: set<nat>, raised: bool)

  predicate AllFramesFit(frames: seq<Frame>) {
    forall i :: 0 <= i < |frames| ==> Fits(frames[i])
  }

  function ServeNext(cfg: Config, before: Served, f: Frame): Served
    requires ValidConfig(cfg) && Fits(f)
  {
    if before.raised then before
    else
      var e := HandleFrame(cfg, before.shared, before.sessions, f);
      match e.reply
      case NoReply => Served(before.output, e.shared, e.sessions, false)
      case Send(bytes) => Served(before.output + bytes, e.shared, e.sessions, false)
      case Raise => Served(before.output, e.shared, e.sessions, true)
  }

  function ServeFrames(cfg: Config, before: Served, frames: seq<Frame>): Served
    requires ValidConfig(cfg) && AllFramesFit(frames)
  {
    if frames == [] then before
    else
      var n := |frames| - 1;
      ServeNext(cfg, ServeFrames(cfg, before, frames[..n]), frames[n])
  }

  /** What stays in the shared state after the connection has released its sessions. */
  function Release(shared: Shared, sessions: set<nat>): Shared {
    shared.(active := shared.active - sessions)
  }

  /** The bytes of all chunks. */
  function Join(chunks: seq<seq<Byte>>): seq<Byte> {
    if chunks == [] then [] else Join(chunks[..|chunks| - 1]) + chunks[|chunks| - 1]
  }

  /** A chunk by itself is its bytes, and the bytes of two lists of chunks are joined. */
  lemma {:induction false} JoinConcat(a: seq<seq<Byte>>, b: seq<seq<Byte>>)
    ensures Join(a + b) == Join(a) + Join(b)
    ensures |b| == 1 ==> Join(b) == b[0]
    decreases |b|
  {
    if b == [] {
      assert a + b == a;
    } else {
      var n := |b| - 1;
      assert (a + b)[..|a + b| - 1] == a + b[..n];
      JoinConcat(a, b[..n]);
    }
  }

  lemma ServeStep(cfg: Config, before: Served, handled: seq<Frame>, f: Frame)
    requires ValidConfig(cfg) && AllFramesFit(handled) && Fits(f)
    ensures AllFramesFit(handled + [f])
    ensures ServeFrames(cfg, before, handled + [f]) == ServeNext(cfg, ServeFrames(cfg, before, handled), f)
  {
  }

  /** Frames may be served in two goes. */
  lemma {:induction false} ServeSplit(cfg: Config, before: Served, first: seq<Frame>, second: seq<Frame>)
    requires ValidConfig(cfg) && AllFramesFit(first) && AllFramesFit(second)
    ensures AllFramesFit(first + second)
    ensures ServeFrames(cfg, before, first + second)
            == ServeFrames(cfg, ServeFrames(cfg, before, first), second)
    decreases |second|
  {
    hide ServeNext;
    if second == [] {
      assert first + second == first;
    } else {
      var n := |second| - 1;
      assert (first + second)[..|first + second| - 1] == first + second[..n];
      ServeSplit(cfg, before, first, second[..n]);
    }
  }

  /** An exception ends the connection: later frames have no effect. */
  lemma {:induction false} RaisedStays(cfg: Config, before: Served, frames: seq<Frame>)
    requires ValidConfig(cfg) && AllFramesFit(frames) && before.raised
    ensures ServeFrames(cfg, before, frames) == before
    decreases |frames|
  {
    hide HandleFrame;
    if frames != [] {
      RaisedStays(cfg, before, frames[..|frames| - 1]);
    }
  }

  lemma {:induction false} ParsedFit(stream: seq<Byte>)
    ensures AllFramesFit(ParseFrames(stream).frames)
    decreases |stream|
  {
    if Complete(stream) {
      ParsedFit(AfterFirst(stream));
    }
  }

  // ---------------------------------------------------------------- status words

  predicate KnownCommand(command: U16) {
    command in {0x04, 0x63, 0x64, 0x65, 0x66, 0x6F}
  }

  lemma BuiltStatus(command: U16, session: nat, context: seq<Byte>, payload: seq<Byte>, status: U32)
    requires |context| == 8
    ensures var reply := BuildReply(command, session, context, payload, status);
            reply.Send? ==> |reply.bytes| == HEADER_SIZE + |payload| && UnpackU32Le(reply.bytes, 8) == status
  {
  }

  /** Why a frame is refused, in the numbers of the wire; 0 if it is not. */
  function Refusal(active: set<nat>, f: Frame): U32 {
    if f.options != 0 then 0x03
    else if !KnownCommand(f.command) then 0x01
    else if f.command == 0x65 && f.payload != [1, 0, 0, 0] then 0x03
    else if f.command == 0x6F && f.session !in active then 0x64
    else if f.command == 0x6F && SelectRequest(f.payload).None? then 0x03
    else 0
  }

  /** A registration is granted for exactly one payload: version 1, no options. */
  lemma RegistersExactly(payload: seq<Byte>)
    ensures RegistersSession(payload) <==> payload == [1, 0, 0, 0]
  {
    if |payload| == 4 {
      PackOfUnpackU16Le(payload, 0);
      PackOfUnpackU16Le(payload, 2);
      assert payload == payload[0..2] + payload[2..4];
    }
  }

  /**
   * The status word on the wire tells why a frame was refused, and a refused frame is answered by a
   * bare header and changes neither sessions nor assemblies.
   */
  lemma RefusedFramesChangeNothing(cfg: Config, shared: Shared, sessions: set<nat>, f: Frame)
    requires ValidConfig(cfg) && Fits(f)
    ensures var e := HandleFrame(cfg, shared, sessions, f);
            && (e.reply.Send? ==> |e.reply.bytes| >= HEADER_SIZE
                                  && UnpackU32Le(e.reply.bytes, 8) == Refusal(shared.active, f))
            && (Refusal(shared.active, f) != 0 ==>
                  e.reply.Send? && |e.reply.bytes| == HEADER_SIZE && e.shared == shared && e.sessions == sessions)
  {
    hide EncodeFrame, SelectRequest, HandleCip, EncodeUnconnected, UnpackU32Le, RegistersSession, NameFits;
    hide ListIdentityPayload;
    RegistersExactly(f.payload);
    forall session: nat, payload: seq<Byte>, status: U32
      ensures var reply := BuildReply(f.command, session, f.context, payload, status);
              reply.Send? ==> |reply.bytes| == HEADER_SIZE + |payload| && UnpackU32Le(reply.bytes, 8) == status
    {
      BuiltStatus(f.command, session, f.context, payload, status);
    }
  }
}
