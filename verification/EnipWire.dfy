/** What goes over an EtherNet/IP connection, octet by octet: requests as they are read, replies as they are sent. */
module EnipWire {
  import opened Wrappers
  import opened Bytes
  import opened EnipFrames
  import opened EnipCpf
  import opened EnipObjects
  import opened EnipProtocol

  // ---------------------------------------------------------------- frames

  /** A 32-bit value, lowest octet first. */
  function Octets(n: U32): seq<Byte> {
    [n % 0x100, n / 0x100 % 0x100, n / 0x1_0000 % 0x100, n / 0x100_0000]
  }

  /** A reply: command, length, session, status, context, options 0, payload. */
  function Wire(command: U16, session: U32, status: U32, context: seq<Byte>, payload: seq<Byte>): seq<Byte>
    requires |payload| < 0x1_0000
  {
    [command % 0x100, command / 0x100, |payload| % 0x100, |payload| / 0x100]
    + Octets(session) + Octets(status) + context + [0, 0, 0, 0] + payload
  }

  lemma EncodedOctets(f: Frame, status: U32)
    requires Fits(f) && f.options == 0
    ensures EncodeFrame(f, status) == Wire(f.command, f.session, status, f.context, f.payload)
  {
    hide PackU32Le;
    OctetsU32Le(f.session);
    OctetsU32Le(status);
    OctetsU32Le(0);
  }

  /** How a request is read off the front of a stream. */
  lemma FrameOctets(b: seq<Byte>)
    ensures Complete(b) <==> |b| >= 24 && |b| >= 24 + b[2] as int + 0x100 * (b[3] as int)
    ensures Complete(b) ==>
              var f, size := FirstFrame(b), 24 + b[2] as int + 0x100 * (b[3] as int);
              && f.command == b[0] as int + 0x100 * (b[1] as int)
              && Octets(f.session) == b[4..8] && f.context == b[12..20] && Octets(f.options) == b[20..24]
              && f.payload == b[24..size] && AfterFirst(b) == b[size..]
  {
    if Complete(b) {
      PackOfUnpackU32Le(b, 4);
      PackOfUnpackU32Le(b, 20);
      OctetsU32Le(UnpackU32Le(b, 4));
      OctetsU32Le(UnpackU32Le(b, 20));
      hide PackU32Le, UnpackU32Le;
    }
  }

  /** A reply as the server packs it. */
  lemma BuiltOctets(command: U16, session: nat, context: seq<Byte>, payload: seq<Byte>, status: U32)
    requires |context| == 8
    ensures BuildReply(command, session, context, payload, status)
            == if |payload| >= 0x1_0000 || session >= 0x1_0000_0000 then Raise
               else Send(Wire(command, session, status, context, payload))
  {
    hide EncodeFrame, Wire;
    if |payload| < 0x1_0000 && session < 0x1_0000_0000 {
      EncodedOctets(Frame(command, session, context, 0, payload), status);
    }
  }

  // ---------------------------------------------------------------- sessions

  /** A registration is granted for exactly one payload: version 1, no options. */
  lemma RegistrationOctets(f: Frame)
    ensures IsRegistration(f) <==> f.options == 0 && f.command == 0x65 && f.payload == [1, 0, 0, 0]
    ensures IsUnregistration(f) <==> f.options == 0 && f.command == 0x66
    ensures IsSendRr(f) <==> f.options == 0 && f.command == 0x6F
  {
    RegistersExactly(f.payload);
  }

  /** What a client gets for the two session commands, and what they do. */
  lemma SessionOctets(cfg: Config, shared: Shared, sessions: set<nat>, f: Frame)
    requires ValidConfig(cfg) && Fits(f) && f.options == 0
    ensures var e, handle := HandleFrame(cfg, shared, sessions, f), shared.next;
            && (f.command == 0x65 && f.payload == [1, 0, 0, 0] ==>
                  && e.reply == (if handle >= 0x1_0000_0000 then Raise
                                 else Send(Wire(0x65, handle, 0, f.context, [1, 0, 0, 0])))
                  && e.shared == Shared(handle + 1, shared.active + {handle}, shared.assemblies)
                  && e.sessions == sessions + {handle})
            && (f.command == 0x65 && f.payload != [1, 0, 0, 0] ==>
                  e == Effect(Send(Wire(0x65, 0, 3, f.context, [])), shared, sessions))
            && (f.command == 0x66 ==>
                  e == Effect(NoReply, Shared(handle, shared.active - {f.session}, shared.assemblies),
                              sessions - {f.session}))
  {
    hide Wire, RunSendRr, BuildReply, RegistersSession;
    RegistrationOctets(f);
    BuiltOctets(0x65, shared.next, f.context, [1, 0, 0, 0], 0);
    BuiltOctets(0x65, 0, f.context, [], 3);
  }

  // ---------------------------------------------------------------- discovery

  /** The name of the service, as text. */
  lemma ServiceName()
    ensures |COMMUNICATIONS| == 16 && COMMUNICATIONS[14..] == [0, 0]
    ensures forall k :: 0 <= k < 14 ==> COMMUNICATIONS[k] == "Communications"[k] as int
    ensures LIST_SERVICES_PAYLOAD == [1, 0, 0, 1, 20, 0, 1, 0, 0x20, 0] + COMMUNICATIONS
  {
  }

  /** What a client finds in the answer to ListIdentity, at its place in the payload. */
  lemma IdentityOctets(cfg: Config)
    requires ValidConfig(cfg) && NameFits(cfg.identity)
    ensures var p, id := ListIdentityPayload(cfg), cfg.identity;
            var n := |id.productName|;
            && |p| == 40 + n && p[..4] == [1, 0, 0x0C, 0] && UnpackU16Le(p, 4) == 34 + n
            && p[6..10] == [1, 0, 0, 2] && UnpackU16Be(p, 10) == cfg.port
            && p[12..16] == cfg.address && p[16..24] == [0, 0, 0, 0, 0, 0, 0, 0]
            && UnpackU16Le(p, 24) == id.vendorId && UnpackU16Le(p, 26) == id.deviceType
            && UnpackU16Le(p, 28) == id.productCode && p[30] == id.revisionMajor && p[31] == id.revisionMinor
            && UnpackU16Le(p, 32) == id.status && UnpackU32Le(p, 34) == id.serialNumber
            && p[38] == n && p[39..39 + n] == id.productName && p[39 + n] == id.state
  {
    var p, item := ListIdentityPayload(cfg), ListIdentityItem(cfg);
    ItemOctets(cfg);
    hide ListIdentityItem;
    assert p[6..] == item;
    assert forall k :: 0 <= k < |item| ==> p[k + 6] == item[k];
    assert p[39..39 + |cfg.identity.productName|] == item[33..33 + |cfg.identity.productName|];
  }

  lemma ItemOctets(cfg: Config)
    requires ValidConfig(cfg) && NameFits(cfg.identity)
    ensures var item, id := ListIdentityItem(cfg), cfg.identity;
            var n := |id.productName|;
            && item[..4] == [1, 0, 0, 2] && UnpackU16Be(item, 4) == cfg.port
            && item[6..10] == cfg.address && item[10..18] == [0, 0, 0, 0, 0, 0, 0, 0]
            && UnpackU16Le(item, 18) == id.vendorId && UnpackU16Le(item, 20) == id.deviceType
            && UnpackU16Le(item, 22) == id.productCode && item[24] == id.revisionMajor && item[25] == id.revisionMinor
            && UnpackU16Le(item, 26) == id.status && UnpackU32Le(item, 28) == id.serialNumber
            && item[32] == n && item[33..33 + n] == id.productName && item[33 + n] == id.state
  {
  }

  /** The three list commands answer under session 0 and change nothing. */
  lemma ListOctets(cfg: Config, shared: Shared, sessions: set<nat>, f: Frame)
    requires ValidConfig(cfg) && Fits(f) && f.options == 0
    ensures var e := HandleFrame(cfg, shared, sessions, f);
            && (f.command == 0x04 ==>
                  e == Effect(Send(Wire(0x04, 0, 0, f.context, [1, 0, 0, 1, 20, 0, 1, 0, 0x20, 0] + COMMUNICATIONS)),
                              shared, sessions))
            && (f.command == 0x64 ==> e == Effect(Send(Wire(0x64, 0, 0, f.context, [0, 0])), shared, sessions))
            && (f.command == 0x63 && NameFits(cfg.identity) ==>
                  |ListIdentityPayload(cfg)| < 0x1_0000
                  && e == Effect(Send(Wire(0x63, 0, 0, f.context, ListIdentityPayload(cfg))), shared, sessions))
            && (f.command == 0x63 && !NameFits(cfg.identity) ==> e == Effect(Raise, shared, sessions))
  {
    hide Wire, RunSendRr, BuildReply, ListIdentityPayload;
    ServiceName();
    BuiltOctets(0x04, 0, f.context, LIST_SERVICES_PAYLOAD, 0);
    BuiltOctets(0x64, 0, f.context, [0, 0], 0);
    if NameFits(cfg.identity) {
      IdentityOctets(cfg);
      BuiltOctets(0x63, 0, f.context, ListIdentityPayload(cfg), 0);
    }
  }

  // ---------------------------------------------------------------- SendRRData and refusals

  /** A payload with a null address item and one CIP request or response. */
  function CpfPayload(timeout: seq<Byte>, cip: seq<Byte>): seq<Byte>
    requires |timeout| == 2 && |cip| < 0x1_0000
  {
    [0, 0, 0, 0] + timeout + [2, 0, 0, 0, 0, 0, 0xB2, 0, |cip| % 0x100, |cip| / 0x100] + cip
  }

  lemma UnconnectedOctets(payload: seq<Byte>, response: seq<Byte>)
    requires |payload| >= 8 && |response| < 0x1_0000
    ensures EncodeUnconnected(TimeoutOf(payload), response) == CpfPayload(payload[4..6], response)
  {
    hide PackU32Le;
    OctetsU32Le(0);
    PackOfUnpackU16Le(payload, 4);
  }

  /** A client's usual payload, octet by octet, gives the server its CIP request. */
  lemma RequestOctets(timeout: seq<Byte>, request: seq<Byte>)
    requires |timeout| == 2 && |request| < 0x1_0000
    ensures SelectRequest(CpfPayload(timeout, request)) == Some(request)
  {
    hide SelectRequest, EncodeUnconnected, TimeoutOf;
    var payload := CpfPayload(timeout, request);
    assert payload[4..6] == timeout;
    UnconnectedOctets(payload, request);
    UnconnectedSelects(TimeoutOf(payload), request);
  }

  /** An admitted request is answered with its CIP response, unless that cannot be packed. */
  lemma SendRrOctets(cfg: Config, shared: Shared, sessions: set<nat>, f: Frame, request: seq<Byte>)
    requires ValidConfig(cfg) && Fits(f) && f.options == 0 && f.command == 0x6F && f.session in shared.active
    requires SelectRequest(f.payload) == Some(request)
    ensures |f.payload| >= 8
    ensures var e := HandleFrame(cfg, shared, sessions, f);
            match HandleCip(cfg.identity, shared.assemblies, request)
            case Raising => e == Effect(Raise, shared, sessions)
            case Responding(response, after) =>
              && e.shared == shared.(assemblies := after) && e.sessions == sessions
              && e.reply == if |response| + 16 >= 0x1_0000 then Raise
                            else Send(Wire(0x6F, f.session, 0, f.context, CpfPayload(f.payload[4..6], response)))
  {
    hide Wire, BuildReply, HandleCip, SelectFrom, EncodeUnconnected, TimeoutOf;
    match HandleCip(cfg.identity, shared.assemblies, request) {
      case Raising =>
      case Responding(response, _) =>
        if |response| < 0x1_0000 {
          UnconnectedOctets(f.payload, response);
          BuiltOctets(0x6F, f.session, f.context, CpfPayload(f.payload[4..6], response), 0);
        }
    }
  }

  /** A frame that is refused is answered by a bare header with its own session and the reason. */
  lemma RefusalOctets(cfg: Config, shared: Shared, sessions: set<nat>, f: Frame)
    requires ValidConfig(cfg) && Fits(f)
    ensures var e := HandleFrame(cfg, shared, sessions, f);
            && (f.options != 0 ==> e == Effect(Send(Wire(f.command, f.session, 3, f.context, [])), shared, sessions))
            && (f.options == 0 && f.command !in {0x04, 0x63, 0x64, 0x65, 0x66, 0x6F} ==>
                  e == Effect(Send(Wire(f.command, f.session, 1, f.context, [])), shared, sessions))
            && (f.options == 0 && f.command == 0x6F && f.session !in shared.active ==>
                  e == Effect(Send(Wire(0x6F, f.session, 0x64, f.context, [])), shared, sessions))
            && (f.options == 0 && f.command == 0x6F && f.session in shared.active && SelectRequest(f.payload).None? ==>
                  e == Effect(Send(Wire(0x6F, f.session, 3, f.context, [])), shared, sessions))
  {
    hide Wire, BuildReply, HandleCip, SelectRequest, EncodeUnconnected, ListIdentityPayload, RegistersSession;
    BuiltOctets(f.command, f.session, f.context, [], 1);
    BuiltOctets(f.command, f.session, f.context, [], 3);
    BuiltOctets(f.command, f.session, f.context, [], 0x64);
  }
}
