/** A client's session as bytes in and bytes out: register, write an assembly, read it back. */
module EnipExchange {
  import opened Wrappers
  import opened Bytes
  import opened EnipFrames
  import opened EnipPath
  import opened EnipCpf
  import opened EnipObjects
  import opened EnipProtocol
  import opened EnipAssemblies

  /** The CIP response to a write that succeeds. */
  const OK: seq<Byte> := [0x90, 0, 0, 0]

  const REGISTER_PAYLOAD: seq<Byte> := [1, 0, 0, 0]

  function RegisterFrame(context: seq<Byte>): Frame {
    Frame(0x65, 0, context, 0, REGISTER_PAYLOAD)
  }

  /** A path that names the data of an assembly, in any order, width and padding. */
  predicate NamesAssembly(path: seq<Segment>, i: U32) {
    && PathFits(path) && |EncodePath(path)| % 2 == 0 && |EncodePath(path)| < 0x200
    && Meaning(path) == Some(Target(4, i, Some(3)))
  }

  /** The longest request that fits a frame behind a null address item. */
  const MAX_REQUEST := 0xFFEF

  /** A SendRRData frame around one CIP request. */
  function CipFrame(session: U32, context: seq<Byte>, timeout: U16, request: seq<Byte>): Frame
    requires |request| <= MAX_REQUEST
  {
    Frame(0x6F, session, context, 0, EncodeUnconnected(timeout, request))
  }

  lemma RegisterHandled(cfg: Config, shared: Shared, context: seq<Byte>)
    requires ValidConfig(cfg) && |context| == 8 && shared.next < 0x1_0000_0000
    ensures HandleFrame(cfg, shared, {}, RegisterFrame(context))
            == Effect(Send(EncodeFrame(Frame(0x65, shared.next, context, 0, REGISTER_PAYLOAD),
                                       0)),
                      shared.(next := shared.next + 1, active := shared.active + {shared.next}), {shared.next})
  {
  }

  lemma WriteHandled(cfg: Config, shared: Shared, sessions: set<nat>, session: U32, context: seq<Byte>,
                     timeout: U16, path: seq<Segment>, i: U32, data: seq<Byte>)
    requires ValidConfig(cfg) && |context| == 8
    requires NamesAssembly(path, i) && |EncodeRequest(0x10, path, data)| <= MAX_REQUEST
    requires session in shared.active && i in shared.assemblies
    ensures var request := EncodeRequest(0x10, path, data);
            |request| <= MAX_REQUEST
            && HandleFrame(cfg, shared, sessions, CipFrame(session, context, timeout, request))
               == Effect(Send(EncodeFrame(CipFrame(session, context, timeout, OK), 0)),
                         shared.(assemblies := shared.assemblies[i := data]), sessions)
  {
    hide EncodeFrame, EncodeUnconnected, SelectRequest, DecodeRequest, EncodePath, TimeoutOf;
    var request := EncodeRequest(0x10, path, data);
    UnconnectedSelects(timeout, request);
    SelectedHasTimeout(EncodeUnconnected(timeout, request));
    DecodeEncoded(0x10, path, data);
    assert CipResponse(0x10, SUCCESS, []) == OK;
    UnconnectedSelects(timeout, OK);
  }

  lemma ReadHandled(cfg: Config, shared: Shared, sessions: set<nat>, session: U32, context: seq<Byte>,
                    timeout: U16, path: seq<Segment>, i: U32)
    requires ValidConfig(cfg) && |context| == 8 && NamesAssembly(path, i)
    requires session in shared.active && i in shared.assemblies && |shared.assemblies[i]| <= MAX_ASSEMBLY
    ensures var request := EncodeRequest(0x0E, path, []);
            |request| <= MAX_REQUEST
            && HandleFrame(cfg, shared, sessions, CipFrame(session, context, timeout, request))
               == Effect(Send(EncodeFrame(CipFrame(session, context, timeout,
                                                   [0x8E, 0, 0, 0] + shared.assemblies[i]),
                                          0)), shared, sessions)
  {
    hide EncodeFrame, EncodeUnconnected, SelectRequest, DecodeRequest, EncodePath, TimeoutOf;
    var request := EncodeRequest(0x0E, path, []);
    UnconnectedSelects(timeout, request);
    SelectedHasTimeout(EncodeUnconnected(timeout, request));
    DecodeEncoded(0x0E, path, []);
    UnconnectedSelects(timeout, [0x8E, 0, 0, 0] + shared.assemblies[i]);
  }

  lemma SelectedHasTimeout(payload: seq<Byte>)
    requires SelectRequest(payload).Some?
    ensures |payload| >= CPF_HEADER_SIZE
  {
  }

  /** The client's three frames on the wire, using the session handle that the first reply grants. */
  function Exchange(session: U32, context: seq<Byte>, timeout: U16, writePath: seq<Segment>, readPath: seq<Segment>,
                    i: U32, data: seq<Byte>, status: U32): seq<WireFrame>
    requires NamesAssembly(writePath, i) && NamesAssembly(readPath, i)
    requires |EncodeRequest(0x10, writePath, data)| <= MAX_REQUEST
  {
    [WireFrame(RegisterFrame(context), status),
     WireFrame(CipFrame(session, context, timeout, EncodeRequest(0x10, writePath, data)), status),
     WireFrame(CipFrame(session, context, timeout, EncodeRequest(0x0E, readPath, [])), status)]
  }

  lemma CipFrameFits(session: U32, context: seq<Byte>, timeout: U16, request: seq<Byte>)
    requires |request| <= MAX_REQUEST && |context| == 8
    ensures Fits(CipFrame(session, context, timeout, request))
    ensures SelectRequest(CipFrame(session, context, timeout, request).payload) == Some(request)
  {
    UnconnectedSelects(timeout, request);
  }

  lemma ServeThree(cfg: Config, before: Served, a: Frame, b: Frame, c: Frame)
    requires ValidConfig(cfg) && Fits(a) && Fits(b) && Fits(c)
    ensures AllFramesFit([a, b, c])
    ensures ServeFrames(cfg, before, [a, b, c])
            == ServeNext(cfg, ServeNext(cfg, ServeNext(cfg, before, a), b), c)
  {
    hide ServeNext;
    ServeStep(cfg, before, [], a);
    ServeStep(cfg, before, [a], b);
    ServeStep(cfg, before, [a, b], c);
    assert [] + [a] == [a] && [a] + [b] == [a, b] && [a, b] + [c] == [a, b, c];
  }

  lemma EncodeThree(a: WireFrame, b: WireFrame, c: WireFrame)
    requires Fits(a.frame) && Fits(b.frame) && Fits(c.frame)
    ensures AllFit([a, b, c])
    ensures EncodeFrames([a, b, c])
            == EncodeFrame(a.frame, a.status) + EncodeFrame(b.frame, b.status) + EncodeFrame(c.frame, c.status)
    ensures ParseFrames(EncodeFrames([a, b, c])) == Parsed([a.frame, b.frame, c.frame], [])
  {
    hide EncodeFrame, ParseFrames;
    assert [a, b, c][1..] == [b, c] && [b, c][1..] == [c] && [c][1..] == [];
    assert EncodeFrames([c]) == EncodeFrame(c.frame, c.status) + EncodeFrames([]);
    ParseEncoded([a, b, c], []);
    assert EncodeFrames([a, b, c]) + [] == EncodeFrames([a, b, c]);
    assert Bare([a, b, c]) == [a.frame, b.frame, c.frame];
  }

  /**
   * Bytes in, bytes out. A client that registers, writes an existing assembly and reads it back is
   * answered by exactly three frames: the first grants the session used by the other two, the
   * second reports success, and the third carries the written bytes.
   */
  lemma WriteThenRead(cfg: Config, shared: Shared, context: seq<Byte>, timeout: U16, writePath: seq<Segment>,
                      readPath: seq<Segment>, i: U32, data: seq<Byte>, status: U32) returns (replies: seq<Frame>)
    requires ValidConfig(cfg) && |context| == 8 && shared.next < 0x1_0000_0000
    requires NamesAssembly(writePath, i) && NamesAssembly(readPath, i)
    requires |EncodeRequest(0x10, writePath, data)| <= MAX_REQUEST
    requires i in shared.assemblies
    ensures var ws := Exchange(shared.next, context, timeout, writePath, readPath, i, data, status);
            AllFit(ws)
            && var frames := ParseFrames(EncodeFrames(ws)).frames;
            AllFramesFit(frames)
            && var served := ServeFrames(cfg, Served([], shared, {}, false), frames);
            && !served.raised
            && served.shared.assemblies == shared.assemblies[i := data]
            && ParseFrames(served.output) == Parsed(replies, [])
    ensures |replies| == 3 && replies[0].session == shared.next
    ensures SelectRequest(replies[1].payload) == Some(OK)
    ensures SelectRequest(replies[2].payload) == Some([0x8E, 0, 0, 0] + data)
  {
    hide EncodeFrame, HandleFrame, CipFrame, EncodePath, Meaning, EncodeRequest, SelectRequest;
    hide EncodeFrames, ParseFrames, ServeFrames, CipResponse, AllFit;
    var h := shared.next;
    var register := RegisterFrame(context);
    RegisterHandled(cfg, shared, context);
    var s1 := shared.(next := h + 1, active := shared.active + {h});
    var s2 := s1.(assemblies := s1.assemblies[i := data]);
    WriteHandled(cfg, s1, {h}, h, context, timeout, writePath, i, data);
    AssemblyPathLength(writePath, i, data);
    ReadHandled(cfg, s2, {h}, h, context, timeout, readPath, i);
    var write := CipFrame(h, context, timeout, EncodeRequest(0x10, writePath, data));
    var read := CipFrame(h, context, timeout, EncodeRequest(0x0E, readPath, []));
    CipFrameFits(h, context, timeout, EncodeRequest(0x10, writePath, data));
    CipFrameFits(h, context, timeout, EncodeRequest(0x0E, readPath, []));
    EncodeThree(WireFrame(register, status), WireFrame(write, status), WireFrame(read, status));
    ServeThree(cfg, Served([], shared, {}, false), register, write, read);

    var ok := OK;
    var answer := [0x8E, 0, 0, 0] + data;
    CipFrameFits(h, context, timeout, ok);
    CipFrameFits(h, context, timeout, answer);
    var g0 := Frame(0x65, h, context, 0, REGISTER_PAYLOAD);
    var g1, g2 := CipFrame(h, context, timeout, ok), CipFrame(h, context, timeout, answer);
    EncodeThree(WireFrame(g0, 0), WireFrame(g1, 0), WireFrame(g2, 0));
    assert [] + EncodeFrame(g0, 0) == EncodeFrame(g0, 0);
    replies := [g0, g1, g2];
  }

  lemma AssemblyPathLength(path: seq<Segment>, i: U32, data: seq<Byte>)
    requires NamesAssembly(path, i)
    ensures |EncodeRequest(0x10, path, data)| >= 8 + |data|
  {
    hide ParsePath, Meaning, EncodePath;
    ParseEncodedPath(path);
    AttributePathLength(EncodePath(path));
  }

  /**
   * The size bound is tight: a single-item payload of the full 65535 bytes can write any 65515
   * bytes, and one more byte in an assembly makes every read of it fail.
   */
  lemma LargestWrite(cfg: Config, store: Store, session: U32, context: seq<Byte>, timeout: U16, i: Byte,
                     data: seq<Byte>)
    returns (f: Frame)
    requires |context| == 8 && |data| == MAX_ASSEMBLY && i in store
    ensures Fits(f) && IsSendRr(f) && f.session == session && |f.payload| == 0xFFFF
    ensures RunSendRr(cfg, store, f).assemblies == store[i := data]
  {
    hide SelectRequest, DecodeRequest, ParsePath, EncodeFrame, EncodePath, EncodeUnconnected, TimeoutOf;
    var path := [Logical(Class, W8, 4), Logical(Instance, W8, i), Logical(Attribute, W8, 3)];
    ShortPath(i);
    var request := EncodeRequest(0x10, path, data);
    DecodeEncoded(0x10, path, data);
    var m := Message(0, timeout, [Item(0xB2, request)], []);
    f := Frame(0x6F, session, context, 0, EncodeMessage(m));
    OneItem(m);
    SelectEncoded(m);
    StoreEffect(cfg.identity, store, request);
  }

  lemma ShortPath(i: Byte)
    ensures var path := [Logical(Class, W8, 4), Logical(Instance, W8, i),
                         Logical(Attribute, W8, 3)];
            && PathFits(path) && |EncodePath(path)| == 6
            && Meaning(path) == Some(Target(4, i, Some(3)))
  {
    hide EncodePath, Meaning;
    ThreeSegments(Logical(Class, W8, 4), Logical(Instance, W8, i), Logical(Attribute, W8, 3));
  }

  lemma OneItem(m: Message)
    requires MessageFits(m) && |m.items| == 1 && m.trailing == []
    ensures |EncodeMessage(m)| == 12 + |m.items[0].data|
    ensures m.items[0].kind == 0xB2 ==> LastUnconnected(m.items) == Some(m.items[0].data)
  {
    assert EncodeItems(m.items) == EncodeItem(m.items[0]) + EncodeItems([]);
  }
}
