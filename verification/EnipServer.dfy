/** The server object, and the request handler that owns one connection. */
module EnipServer {
  import opened Wrappers
  import opened Bytes
  import opened EnipFrames
  import opened EnipPath
  import opened EnipCpf
  import opened EnipObjects
  import opened EnipProtocol

  /** The session handles of one connection; the handler and the server share and update it. */
  class SessionSet {
    var handles: set<nat>

    constructor ()
      ensures handles == {}
    {
      handles := {};
    }
  }

  class Server {
    const config: Config
    var nextSessionHandle: nat
    var activeSessions: set<nat>
    var assemblies: Store

    ghost function State(): Shared
      reads this
    {
      Shared(nextSessionHandle, activeSessions, assemblies)
    }

    constructor (config: Config)
      ensures this.config == config && State() == Initial(config)
    {
      this.config := config;
      nextSessionHandle := 1;
      activeSessions := {};
      assemblies := config.assemblies;
    }

    method SetAssemblyData(instance: nat, data: seq<Byte>)
      modifies this`assemblies
      ensures assemblies == old(assemblies)[instance := data]
    {
      assemblies := assemblies[instance := data];
    }

    /** `None` is the KeyError of an unknown instance. */
    method GetAssemblyData(instance: nat) returns (data: Option<seq<Byte>>)
      ensures data == if instance in assemblies then Some(assemblies[instance]) else None
    {
      if instance !in assemblies {
        return None;
      }
      return Some(assemblies[instance]);
    }

    method ReleaseSessions(sessions: SessionSet)
      modifies this`activeSessions
      ensures State() == Release(old(State()), sessions.handles)
    {
      if sessions.handles == {} {
        return;
      }
      activeSessions := activeSessions - sessions.handles;
    }

    method RegisterSession(context: seq<Byte>, payload: seq<Byte>, sessions: SessionSet) returns (reply: Reply)
      requires |context| == 8 && ValidConfig(config) && |payload| < 0x1_0000
      modifies this`nextSessionHandle, this`activeSessions, sessions
      ensures Settled(reply, State(), sessions.handles)
              == Admit(config, old(State()), old(sessions.handles), Frame(REGISTER_SESSION, 0, context, 0, payload))
    {
      if |payload| != 4 {
        return BuildReply(REGISTER_SESSION, 0, context, [], INCORRECT_DATA);
      }
      var protocolVersion, optionFlags := UnpackU16Le(payload, 0), UnpackU16Le(payload, 2);
      if protocolVersion != 1 || optionFlags != 0 {
        return BuildReply(REGISTER_SESSION, 0, context, [], INCORRECT_DATA);
      }
      var sessionHandle := nextSessionHandle;
      nextSessionHandle := nextSessionHandle + 1;
      activeSessions := activeSessions + {sessionHandle};
      sessions.handles := sessions.handles + {sessionHandle};
      return BuildReply(REGISTER_SESSION, sessionHandle, context, payload, ENCAP_SUCCESS);
    }

    method UnregisterSession(sessionHandle: nat, sessions: SessionSet)
      modifies this`activeSessions, sessions
      ensures activeSessions == old(activeSessions) - {sessionHandle}
      ensures sessions.handles == old(sessions.handles) - {sessionHandle}
    {
      activeSessions := activeSessions - {sessionHandle};
      sessions.handles := sessions.handles - {sessionHandle};
    }

    method SessionIsActive(sessionHandle: nat) returns (active: bool)
      ensures active <==> sessionHandle in activeSessions
    {
      return sessionHandle in activeSessions;
    }

    method SetAttributeSingle(classCode: nat, instance: nat, attribute: nat, value: seq<Byte>) returns (status: Byte)
      modifies this`assemblies
      ensures status == SetAttributeStatus(old(assemblies), classCode, instance, attribute)
      ensures assemblies == if status == SUCCESS then old(assemblies)[instance := value] else old(assemblies)
    {
      if classCode == ASSEMBLY_CLASS {
        if attribute != ASSEMBLY_DATA {
          return ATTRIBUTE_NOT_SUPPORTED;
        }
        if instance !in assemblies {
          return PATH_DESTINATION_UNKNOWN;
        }
        assemblies := assemblies[instance := value];
        return SUCCESS;
      }
      if classCode == IDENTITY_CLASS && instance == 1 {
        return ATTRIBUTE_NOT_SETTABLE;
      }
      return PATH_DESTINATION_UNKNOWN;
    }

    /** `None` is an exception that leaves the handler. */
    method HandleCipRequest(request: seq<Byte>) returns (response: Option<seq<Byte>>)
      modifies this`assemblies
      ensures match HandleCip(config.identity, old(assemblies), request)
              case Raising => response.None? && assemblies == old(assemblies)
              case Responding(bytes, after) => response == Some(bytes) && assemblies == after
    {
      if |request| < 2 {
        return Some(CipResponse(0, NOT_ENOUGH_DATA, []));
      }
      var service := request[0];
      var pathLength := 2 * request[1] as int;
      if |request| < 2 + pathLength {
        return Some(CipResponse(service, NOT_ENOUGH_DATA, []));
      }
      var parsed := ParseCipPath(request[2..2 + pathLength]);
      if parsed.None? {
        return Some(CipResponse(service, PATH_SEGMENT_ERROR, []));
      }
      var Target(classCode, instance, attribute) := parsed.value;
      var data := request[2 + pathLength..];
      var answer;
      if service == GET_ATTRIBUTES_ALL {
        answer := GetAttributesAll(config.identity, assemblies, classCode, instance);
      } else if service == GET_ATTRIBUTE_SINGLE {
        if attribute.None? {
          return Some(CipResponse(service, PATH_DESTINATION_UNKNOWN, []));
        }
        answer := GetAttribute(config.identity, assemblies, classCode, instance, attribute.value);
      } else if service == SET_ATTRIBUTE_SINGLE {
        if attribute.None? {
          return Some(CipResponse(service, PATH_DESTINATION_UNKNOWN, []));
        }
        var status := SetAttributeSingle(classCode, instance, attribute.value, data);
        return Some(CipResponse(service, status, []));
      } else {
        return Some(CipResponse(service, SERVICE_NOT_SUPPORTED, []));
      }
      match answer {
        case Raised => return None;
        case Answer(bytes, status) => return Some(CipResponse(service, status, bytes));
      }
    }

    /** The item loop and the CIP action of an admitted SendRRData. */
    method HandleSendRrData(frame: Frame) returns (reply: Reply)
      requires |frame.context| == 8
      modifies this`assemblies
      ensures CipEffect(reply, assemblies) == RunSendRr(config, old(assemblies), frame)
    {
      hide HandleCip, BuildReply, EncodeUnconnected, UnpackU16Le, UnpackU32Le;
      var payload := frame.payload;
      if |payload| < CPF_HEADER_SIZE {
        return BuildReply(frame.command, frame.session, frame.context, [], INCORRECT_DATA);
      }
      var interfaceHandle, timeout := UnpackU32Le(payload, 0), UnpackU16Le(payload, 4);
      var itemCount := UnpackU16Le(payload, 6);
      if interfaceHandle != 0 {
        return BuildReply(frame.command, frame.session, frame.context, [], INCORRECT_DATA);
      }
      var offset := CPF_HEADER_SIZE;
      var cipRequest := None;
      for k := 0 to itemCount
        invariant CPF_HEADER_SIZE <= offset <= |payload|
        invariant SelectRequest(payload) == SelectFrom(payload, offset, itemCount - k, cipRequest)
      {
        if |payload| < offset + 4 {
          return BuildReply(frame.command, frame.session, frame.context, [], INCORRECT_DATA);
        }
        var itemType, itemLength := UnpackU16Le(payload, offset), UnpackU16Le(payload, offset + 2);
        offset := offset + 4;
        if |payload| < offset + itemLength {
          return BuildReply(frame.command, frame.session, frame.context, [], INCORRECT_DATA);
        }
        var itemData := payload[offset..offset + itemLength];
        offset := offset + itemLength;
        if itemType == UNCONNECTED_DATA {
          cipRequest := Some(itemData);
        }
      }
      if cipRequest.None? {
        return BuildReply(frame.command, frame.session, frame.context, [], INCORRECT_DATA);
      }
      var response := HandleCipRequest(cipRequest.value);
      if response.None? || |response.value| >= 0x1_0000 {
        return Raise;
      }
      return BuildReply(frame.command, frame.session, frame.context,
                        EncodeUnconnected(timeout, response.value), ENCAP_SUCCESS);
    }

    method Handle(frame: Frame, sessions: SessionSet) returns (reply: Reply)
      requires ValidConfig(config) && Fits(frame)
      modifies this, sessions
      ensures Effect(reply, State(), sessions.handles)
              == HandleFrame(config, old(State()), old(sessions.handles), frame)
    {
      if frame.options != 0 {
        return BuildReply(frame.command, frame.session, frame.context, [], INCORRECT_DATA);
      }
      if frame.command == REGISTER_SESSION {
        reply := RegisterSession(frame.context, frame.payload, sessions);
        return;
      }
      if frame.command == UNREGISTER_SESSION {
        UnregisterSession(frame.session, sessions);
        return NoReply;
      }
      var responseSession: nat := frame.session;
      var payload: seq<Byte> := [];
      var status := ENCAP_SUCCESS;
      if frame.command == LIST_SERVICES {
        responseSession, payload := 0, LIST_SERVICES_PAYLOAD;
      } else if frame.command == LIST_IDENTITY {
        if !NameFits(config.identity) {
          return Raise;
        }
        responseSession, payload := 0, ListIdentityPayload(config);
      } else if frame.command == LIST_INTERFACES {
        responseSession, payload := 0, PackU16Le(0);
      } else if frame.command == SEND_RR_DATA {
        var active := SessionIsActive(frame.session);
        if active {
          reply := HandleSendRrData(frame);
          return;
        }
        status := INVALID_SESSION;
      } else {
        status := INVALID_COMMAND;
      }
      return BuildReply(frame.command, responseSession, frame.context, payload, status);
    }

    /** The inner loop: handles every whole frame the buffer starts with, sending the replies. */
    method DrainBuffer(start: seq<Byte>, sessions: SessionSet, sent: seq<Byte>)
      returns (output: seq<Byte>, buffer: seq<Byte>, raised: bool)
      requires ValidConfig(config)
      modifies this, sessions
      ensures AllFramesFit(ParseFrames(start).frames)
      ensures Served(output, State(), sessions.handles, raised)
               == ServeFrames(config, Served(sent, old(State()), old(sessions.handles), false),
                             ParseFrames(start).frames)
      ensures !raised ==> buffer == ParseFrames(start).rest && !Complete(buffer)
    {
      output, buffer, raised := sent, start, false;
      ghost var before := Served(sent, State(), sessions.handles, false);
      ghost var frames := ParseFrames(start).frames;
      ghost var handled: seq<Frame> := [];
      ParsedFit(start);
      assert handled + frames == frames;
      while |buffer| >= HEADER_SIZE
        invariant AllFramesFit(handled)
        invariant ParseFrames(start) == Parsed(handled + ParseFrames(buffer).frames, ParseFrames(buffer).rest)
        invariant Served(output, State(), sessions.handles, false) == ServeFrames(config, before, handled)
        decreases |buffer|
      {
        if |buffer| < HEADER_SIZE + UnpackU16Le(buffer, 2) {
          break;
        }
        hide HandleFrame, FirstFrame, AfterFirst, ParseFrames, ServeFrames;
        var frame := FirstFrame(buffer);
        TakeFrame(start, handled, buffer);
        ServeStep(config, before, handled, frame);
        buffer := AfterFirst(buffer);
        handled := handled + [frame];
        var reply := Handle(frame, sessions);
        match reply {
          case NoReply =>
          case Send(bytes) => output := output + bytes;
          case Raise =>
            raised := true;
            ParsedFit(buffer);
            ServeSplit(config, before, handled, ParseFrames(buffer).frames);
            RaisedStays(config, ServeFrames(config, before, handled), ParseFrames(buffer).frames);
            return;
        }
      }
      NothingLeft(handled, buffer);
    }

    /**
     * One connection from its first chunk to the release of its sessions. Only an empty chunk, which
     * is the end of the stream, ends it early. The frames handled, the bytes sent, the leftover and
     * the final server state are those of a one-shot parse of all `heard` chunks joined, so they do
     * not depend on how the stream was cut into chunks.
     */
    method ServeConnection(chunks: seq<seq<Byte>>)
      returns (output: seq<Byte>, leftover: seq<Byte>, ghost heard: nat, ghost served: Served)
      requires ValidConfig(config)
      modifies this
      ensures heard <= |chunks| && (heard < |chunks| ==> chunks[heard] == [])
      ensures forall k :: 0 <= k < heard ==> chunks[k] != []
      ensures AllFramesFit(ParseFrames(Join(chunks[..heard])).frames)
      ensures served == ServeFrames(config, Served([], old(State()), {}, false),
                                    ParseFrames(Join(chunks[..heard])).frames)
      ensures output == served.output
      ensures State() == Release(served.shared, served.sessions)
      ensures !served.raised ==> leftover == ParseFrames(Join(chunks[..heard])).rest && !Complete(leftover)
    {
      hide HandleFrame, ParseFrames, ServeFrames, Complete, AllFramesFit, Join;
      var sessions := new SessionSet();
      var buffer: seq<Byte> := [];
      output := [];
      JoinNothing();
      ghost var before := Served([], State(), {}, false);
      heard := FirstEmpty(chunks);
      ghost var whole := chunks[..heard];
      served := before;
      ParsedFit(Join(whole));
      NothingServed(config, before);
      var k := 0;
      while k < |chunks| && chunks[k] != []
        invariant 0 <= k <= heard && fresh(sessions)
        invariant ParseFrames(Join(whole[..k])).rest == buffer && !Complete(buffer)
        invariant AllFramesFit(ParseFrames(Join(whole[..k])).frames)
        invariant served == Served(output, State(), sessions.handles, false)
        invariant served == ServeFrames(config, before, ParseFrames(Join(whole[..k])).frames)
      {
        var raised;
        buffer := buffer + chunks[k];
        output, buffer, raised := DrainBuffer(buffer, sessions, output);
        JoinNext(whole, k);
        MoreFrames(config, before, Join(whole[..k]), chunks[k]);
        served := Served(output, State(), sessions.handles, raised);
        k := k + 1;
        if raised {
          RaisedIsServed(config, before, whole, k);
          ReleaseSessions(sessions);
          leftover := buffer;
          return;
        }
      }
      assert whole[..k] == whole;
      ReleaseSessions(sessions);
      leftover := buffer;
    }
  }

  lemma JoinNothing()
    ensures Join([]) == []
  {
  }

  lemma JoinNext(chunks: seq<seq<Byte>>, k: nat)
    requires k < |chunks|
    ensures Join(chunks[..k + 1]) == Join(chunks[..k]) + chunks[k]
  {
    assert chunks[..k + 1][..k] == chunks[..k];
  }

  /** A handler that has failed after some chunks has served what it serves of all of them. */
  lemma RaisedIsServed(cfg: Config, before: Served, chunks: seq<seq<Byte>>, k: nat)
    requires ValidConfig(cfg) && k <= |chunks| && AllFramesFit(ParseFrames(Join(chunks[..k])).frames)
    requires ServeFrames(cfg, before, ParseFrames(Join(chunks[..k])).frames).raised
    ensures AllFramesFit(ParseFrames(Join(chunks)).frames)
    ensures ServeFrames(cfg, before, ParseFrames(Join(chunks)).frames)
            == ServeFrames(cfg, before, ParseFrames(Join(chunks[..k])).frames)
  {
    hide *;
    var stream, more := Join(chunks[..k]), Join(chunks[k..]);
    JoinConcat(chunks[..k], chunks[k..]);
    assert chunks[..k] + chunks[k..] == chunks;
    MoreFrames(cfg, before, stream, more);
    RaisedStays(cfg, ServeFrames(cfg, before, ParseFrames(stream).frames),
                ParseFrames(ParseFrames(stream).rest + more).frames);
  }

  /** The number of chunks before the first empty one. */
  ghost function FirstEmpty(chunks: seq<seq<Byte>>): (n: nat)
    ensures n <= |chunks| && (n < |chunks| ==> chunks[n] == [])
    ensures forall k :: 0 <= k < n ==> chunks[k] != []
  {
    if chunks == [] || chunks[0] == [] then 0 else 1 + FirstEmpty(chunks[1..])
  }

  lemma NothingServed(cfg: Config, before: Served)
    requires ValidConfig(cfg)
    ensures !Complete([]) && ParseFrames([]) == Parsed([], []) && AllFramesFit([])
    ensures ServeFrames(cfg, before, []) == before
  {
  }

  /** Serving what a longer stream adds to a served one. */
  lemma MoreFrames(cfg: Config, before: Served, stream: seq<Byte>, more: seq<Byte>)
    requires ValidConfig(cfg)
    ensures AllFramesFit(ParseFrames(stream).frames) && AllFramesFit(ParseFrames(stream + more).frames)
    ensures var later := ParseFrames(ParseFrames(stream).rest + more);
            && AllFramesFit(later.frames)
            && later.rest == ParseFrames(stream + more).rest
            && ServeFrames(cfg, before, ParseFrames(stream + more).frames)
               == ServeFrames(cfg, ServeFrames(cfg, before, ParseFrames(stream).frames), later.frames)
  {
    hide *;
    ParsedFit(stream);
    ParsedFit(ParseFrames(stream).rest + more);
    ParseResumes(stream, more);
    ServeSplit(cfg, before, ParseFrames(stream).frames, ParseFrames(ParseFrames(stream).rest + more).frames);
  }

  lemma NothingLeft(handled: seq<Frame>, buffer: seq<Byte>)
    requires !Complete(buffer)
    ensures handled + ParseFrames(buffer).frames == handled && ParseFrames(buffer).rest == buffer
  {
  }

  /** Moving one frame from the buffer to the handled ones keeps the parse of the stream. */
  lemma TakeFrame(stream: seq<Byte>, handled: seq<Frame>, buffer: seq<Byte>)
    requires Complete(buffer)
    requires ParseFrames(stream) == Parsed(handled + ParseFrames(buffer).frames, ParseFrames(buffer).rest)
    ensures var after := ParseFrames(AfterFirst(buffer));
            ParseFrames(stream) == Parsed((handled + [FirstFrame(buffer)]) + after.frames, after.rest)
  {
  }
}
