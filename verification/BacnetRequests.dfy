/** Requests and replies through the whole BACnet stack. */
module BacnetRequests {
  import opened Wrappers
  import opened Bytes
  import opened BacnetTags
  import opened BacnetStack

  // ---------------------------------------------------------------- property requests

  /** The array index that a request may give behind the property. */
  predicate IndexFits(index: Option<nat>) {
    index.Some? ==> TagEncodable(index.value)
  }

  function EncodeIndex(index: Option<nat>): seq<Byte>
    requires IndexFits(index)
  {
    if index.Some? then EncodeContextUnsigned(2, index.value) else []
  }

  /** An object, a property identifier and perhaps an array index, as requests start. */
  function EncodeReference(kind: ObjectType, i: ObjectInstance, p: nat, index: Option<nat>): seq<Byte>
    requires TagEncodable(p) && IndexFits(index)
  {
    EncodeContextObject(0, kind, i) + EncodeContextUnsigned(1, p) + EncodeIndex(index)
  }

  lemma EncodedIndexTag(v: nat)
    requires TagEncodable(v)
    ensures EncodeContextUnsigned(2, v) != [] && IsContextTag(EncodeContextUnsigned(2, v)[0], 2)
  {
    hide EncodeUnsigned;
  }

  /** A reference is recovered from the front of a payload; the index is skipped. */
  lemma ReferenceParses(kind: ObjectType, i: ObjectInstance, p: nat, index: Option<nat>, rest: seq<Byte>)
    requires TagEncodable(p) && IndexFits(index)
    requires rest == [] || !IsContextTag(rest[0], 2)
    ensures ParseReference(EncodeReference(kind, i, p, index) + rest)
            == Reply((Reference(ObjectId(kind, i), p), |EncodeReference(kind, i, p, index)|))
  {
    hide EncodeContextObject, EncodeContextUnsigned, DecodeContextObject, DecodeContextUnsigned, IsContextTag;
    hide TagEncodable;
    var identifier, property := EncodeContextObject(0, kind, i), EncodeContextUnsigned(1, p);
    var payload, behind := EncodeReference(kind, i, p, index) + rest, EncodeIndex(index) + rest;
    assert payload == [] + identifier + (property + behind);
    ContextObjectAt([], 0, kind, i, property + behind);
    assert payload == identifier + property + behind;
    ContextUnsignedAt(identifier, 1, p, behind);
    if index.Some? {
      assert payload == (identifier + property) + EncodeContextUnsigned(2, index.value) + rest;
      EncodedIndexTag(index.value);
      ContextUnsignedAt(identifier + property, 2, index.value, rest);
    }
  }

  /** A read request is recovered exactly, with or without an array index. */
  lemma ReadRequestParses(kind: ObjectType, i: ObjectInstance, p: nat, index: Option<nat>)
    requires TagEncodable(p) && IndexFits(index)
    ensures ParsePropertyReference(EncodeReference(kind, i, p, index)) == Reply(Reference(ObjectId(kind, i), p))
  {
    hide ParseReference, EncodeReference, TagEncodable;
    ReferenceParses(kind, i, p, index, []);
    assert EncodeReference(kind, i, p, index) + [] == EncodeReference(kind, i, p, index);
  }

  /** The body of a write request; a priority may stand behind the value. */
  function EncodeWrite(kind: ObjectType, i: ObjectInstance, p: nat, index: Option<nat>, value: seq<Byte>,
                       trailing: seq<Byte>): seq<Byte>
    requires TagEncodable(p) && IndexFits(index)
  {
    EncodeReference(kind, i, p, index) + ([0x3E] + value + [0x3F] + trailing)
  }

  /** A value up to its first octet that looks like the closing tag. */
  function BeforeClosing(value: seq<Byte>): (b: seq<Byte>)
    ensures b <= value && 0x3F !in b
    ensures b != value ==> value[|b|] == 0x3F
    ensures b == value <==> 0x3F !in value
  {
    if value == [] then []
    else if value[0] == 0x3F then []
    else
      var tail := BeforeClosing(value[1..]);
      assert value == [value[0]] + value[1..];
      [value[0]] + tail
  }

  lemma FindsFirst(payload: seq<Byte>, octet: Byte, from: nat, at: nat)
    requires from <= at < |payload| && payload[at] == octet && octet !in payload[from..at]
    ensures Find(payload, octet, from) == Some(at)
  {
  }

  /**
   * A write request gives back the object, the property, and the value up to its first 0x3F octet:
   * the whole value exactly when it has none. The index and what follows the value do not matter.
   */
  lemma WriteRequestParses(kind: ObjectType, i: ObjectInstance, p: nat, index: Option<nat>, value: seq<Byte>,
                           trailing: seq<Byte>)
    requires TagEncodable(p) && IndexFits(index)
    ensures ParseWriteRequest(EncodeWrite(kind, i, p, index, value, trailing))
            == Reply(WriteRequest(Reference(ObjectId(kind, i), p), BeforeClosing(value)))
    ensures BeforeClosing(value) == value <==> 0x3F !in value
  {
    hide EncodeReference, ParseReference, Find, BeforeClosing, TagEncodable;
    var head := EncodeReference(kind, i, p, index);
    var rest := [OpeningTag(3)] + value + [ClosingTag(3)] + trailing;
    var payload := EncodeWrite(kind, i, p, index, value, trailing);
    ReferenceParses(kind, i, p, index, rest);
    var start := |head| + 1;
    var end := start + |BeforeClosing(value)|;
    assert payload[start..end] == BeforeClosing(value);
    assert payload[start..] == value + [ClosingTag(3)] + trailing;
    assert payload[end] == payload[start..][end - start] == ClosingTag(3);
    FindsFirst(payload, ClosingTag(3), start, end);
  }

  /** The body of an acknowledgement, octet by octet. */
  lemma AckOctets(kind: ObjectType, i: ObjectInstance, p: Byte, value: seq<Byte>)
    ensures TagEncodable(p)
    ensures EncodeAck(kind, i, p, value) == [0x0C] + ObjectOctets(kind, i) + [0x19, p, 0x3E] + value + [0x3F]
  {
    hide EncodeContextObject, EncodeContextUnsigned, EncodeUnsigned;
    SmallIsOneOctet(p);
    TagOctets(kind, i, [0, 0, 0, 0], []);
    NumberTags(p);
    assert NumberOctets(0x18, p) == [0x19, p];
  }

  /** The body of an acknowledgement is a write request. */
  lemma AckIsWrite(kind: ObjectType, i: ObjectInstance, p: nat, value: seq<Byte>)
    requires TagEncodable(p)
    ensures EncodeAck(kind, i, p, value) == EncodeWrite(kind, i, p, None, value, [])
  {
    hide EncodeContextObject, EncodeContextUnsigned, TagEncodable;
  }

  /** An acknowledgement body read as a write request gives back what it acknowledges. */
  lemma AckParsesAsWrite(kind: ObjectType, i: ObjectInstance, p: nat, value: seq<Byte>)
    requires TagEncodable(p)
    ensures ParseWriteRequest(EncodeAck(kind, i, p, value))
            == Reply(WriteRequest(Reference(ObjectId(kind, i), p), BeforeClosing(value)))
    ensures BeforeClosing(value) == value <==> 0x3F !in value
  {
    hide EncodeWrite, EncodeAck, ParseWriteRequest, BeforeClosing, TagEncodable;
    AckIsWrite(kind, i, p, value);
    WriteRequestParses(kind, i, p, None, value, []);
  }

  /** Every readable property is recovered from its acknowledgement, if its value has no 0x3F octet. */
  lemma ReadAckParsesAsWrite(d: Device, t: Table, kind: ObjectType, i: ObjectInstance, p: nat, value: seq<Byte>)
    requires ReadProperty(d, t, kind, i, p) == Reply(value)
    ensures TagEncodable(p)
    ensures ParseWriteRequest(EncodeAck(kind, i, p, value))
            == Reply(WriteRequest(Reference(ObjectId(kind, i), p), value))
            <==> 0x3F !in value
  {
    hide ReadProperty, EncodeAck, ParseWriteRequest, BeforeClosing;
    SmallIsOneOctet(p);
    AckParsesAsWrite(kind, i, p, value);
  }

  /** The write requests that clients send for a present value, and what the server makes of them. */
  lemma PresentValueWrite(t: Table, invokeId: Byte, i: ObjectInstance, r: Real, index: Option<nat>,
                          trailing: seq<Byte>)
    requires IndexFits(index)
    ensures TagEncodable(PROPERTY_PRESENT_VALUE)
    ensures HandleWriteProperty(t, invokeId, EncodeWrite(ANALOG_VALUE, i, PROPERTY_PRESENT_VALUE, index,
                                                         EncodeApplicationReal(r), trailing))
            == if i in t && 0x3F !in r
               then Effect(Reply([SIMPLE_ACK, invokeId, WRITE_PROPERTY]), SetPresent(t, i, r))
               else Effect(Nothing, t)
  {
    hide EncodeWrite, ParseWriteRequest, BeforeClosing, IndexFits;
    var value := EncodeApplicationReal(r);
    SmallIsOneOctet(PROPERTY_PRESENT_VALUE);
    WriteRequestParses(ANALOG_VALUE, i, PROPERTY_PRESENT_VALUE, index, value, trailing);
    assert value == [0x44] + r;
    assert 0x3F in value <==> 0x3F in r;
    ApplicationRealExactly(value, r);
  }

  /** Replaying the acknowledgement of a present value as a write leaves the table unchanged. */
  lemma ReplayChangesNothing(t: Table, invokeId: Byte, i: ObjectInstance)
    requires i in t
    ensures TagEncodable(PROPERTY_PRESENT_VALUE)
    ensures HandleWriteProperty(t, invokeId, EncodeAck(ANALOG_VALUE, i, PROPERTY_PRESENT_VALUE,
                                                       EncodeApplicationReal(t[i].presentValue))).table == t
  {
    hide EncodeAck, EncodeWrite, HandleWriteProperty, EncodeApplicationReal, TagEncodable;
    PresentValueWrite(t, invokeId, i, t[i].presentValue, None, []);
    AckIsWrite(ANALOG_VALUE, i, PROPERTY_PRESENT_VALUE, EncodeApplicationReal(t[i].presentValue));
  }

  // ---------------------------------------------------------------- envelopes

  /** How an NPDU names remote networks. */
  datatype Route =
    | Direct
    | ToDestination(net: U16, address: seq<Byte>, hops: Byte)
    | FromSource(net: U16, address: seq<Byte>)

  predicate RouteFits(route: Route) {
    route.Direct? || |route.address| < 0x100
  }

  /** Control bits that announce neither an address nor a network message: the server ignores them. */
  predicate PlainFlags(flags: Byte) {
    !HasDestination(flags) && !HasSource(flags) && !IsNetworkMessage(flags)
  }

  function EncodeNpdu(route: Route, flags: Byte, apdu: seq<Byte>): seq<Byte>
    requires RouteFits(route) && PlainFlags(flags)
  {
    match route
    case Direct => [0x01, flags] + apdu
    case ToDestination(net, address, hops) =>
      [0x01, flags + 0x20] + PackU16Be(net) + [|address|] + address + [hops] + apdu
    case FromSource(net, address) =>
      [0x01, flags + 0x08] + PackU16Be(net) + [|address|] + address + apdu
  }

  function EncodeDatagram(bvlcFunction: Byte, npdu: seq<Byte>): seq<Byte>
    requires 4 + |npdu| < 0x1_0000
  {
    [0x81, bvlcFunction] + PackU16Be(4 + |npdu|) + npdu
  }

  lemma NpduApdu(route: Route, flags: Byte, apdu: seq<Byte>)
    requires RouteFits(route) && PlainFlags(flags)
    ensures var npdu := EncodeNpdu(route, flags, apdu);
            ApduOffset(npdu).Some? && npdu[ApduOffset(npdu).value..] == apdu
  {
    hide PackU16Be;
    var npdu := EncodeNpdu(route, flags, apdu);
    if !route.Direct? {
      PackedNet(route.net);
      assert npdu[4] == |route.address|;
    }
  }

  lemma PackedNet(net: U16)
    ensures |PackU16Be(net)| == 2
  {
  }

  lemma DatagramNpdu(bvlcFunction: Byte, npdu: seq<Byte>)
    requires 4 + |npdu| < 0x1_0000
    requires bvlcFunction == ORIGINAL_UNICAST || bvlcFunction == ORIGINAL_BROADCAST
    ensures UnwrapBvlc(EncodeDatagram(bvlcFunction, npdu)) == Some(npdu)
  {
  }

  /** The reply to an APDU, or its absence, as the server sends it. */
  function Wrapped(apdu: Outcome<seq<Byte>>): Outcome<seq<Byte>> {
    WrapBvlc(WrapNpdu(apdu))
  }

  /** The envelope does not matter: only the APDU decides the reply and the change of the table. */
  lemma EnvelopeDoesNotMatter(d: Device, t: Table, bvlcFunction: Byte, route: Route, flags: Byte, apdu: seq<Byte>)
    requires RouteFits(route) && PlainFlags(flags) && 4 + |EncodeNpdu(route, flags, apdu)| < 0x1_0000
    requires bvlcFunction == ORIGINAL_UNICAST || bvlcFunction == ORIGINAL_BROADCAST
    ensures var e := HandleApdu(d, t, apdu);
            HandleDatagram(d, t, EncodeDatagram(bvlcFunction, EncodeNpdu(route, flags, apdu)))
            == Effect(Wrapped(e.outcome), e.table)
  {
    hide EncodeNpdu, EncodeDatagram, HandleApdu, UnwrapBvlc, ApduOffset, WrapBvlc, WrapNpdu;
    DatagramNpdu(bvlcFunction, EncodeNpdu(route, flags, apdu));
    NpduApdu(route, flags, apdu);
  }

  /** An NPDU with both addresses in the order of the standard: the hop count comes last. */
  function EncodeStandardNpdu(flags: Byte, dnet: U16, dadr: seq<Byte>, snet: U16, sadr: seq<Byte>, hops: Byte,
                              apdu: seq<Byte>): seq<Byte>
    requires PlainFlags(flags) && |dadr| < 0x100 && |sadr| < 0x100
  {
    [0x01, flags + 0x28] + PackU16Be(dnet) + [|dadr|] + dadr
    + PackU16Be(snet) + [|sadr|] + sadr + [hops] + apdu
  }

  /**
   * The server looks for the hop count before the source address, so it reads the octet behind the
   * source length as that length. It finds the APDU exactly when the two happen to be equal.
   */
  lemma StandardOrderExactly(flags: Byte, dnet: U16, dadr: seq<Byte>, snet: U16, sadr: seq<Byte>, hops: Byte,
                             apdu: seq<Byte>)
    requires PlainFlags(flags) && |dadr| < 0x100 && |sadr| < 0x100
    ensures var npdu := EncodeStandardNpdu(flags, dnet, dadr, snet, sadr, hops, apdu);
            var behindLength := if sadr == [] then hops else sadr[0];
            ApduOffset(npdu) == Some(|npdu| - |apdu|) <==> behindLength == |sadr|
  {
  }

  // ---------------------------------------------------------------- write, then read

  /** What a confirmed request may choose: two free header octets, the array index and the octets at its end. */
  datatype Options = Options(lead: Byte, limits: Byte, index: Option<nat>, trailing: seq<Byte>)

  predicate OptionsFit(o: Options) {
    o.lead < 0x10 && IndexFits(o.index)
  }

  const PLAIN := Options(0, 5, None, [])

  function WriteApdu(o: Options, invokeId: Byte, i: ObjectInstance, r: Real): seq<Byte>
    requires OptionsFit(o)
  {
    SmallIsOneOctet(85);
    [o.lead, o.limits, invokeId, 0x0F]
    + EncodeWrite(2, i, 85, o.index, EncodeApplicationReal(r), o.trailing)
  }

  /** A read has nothing behind its reference. */
  function ReadApdu(o: Options, invokeId: Byte, kind: ObjectType, i: ObjectInstance, p: nat): seq<Byte>
    requires OptionsFit(o) && TagEncodable(p)
  {
    [o.lead, o.limits, invokeId, 0x0C] + EncodeReference(kind, i, p, o.index)
  }

  lemma WriteApduHandled(d: Device, t: Table, o: Options, invokeId: Byte, i: ObjectInstance, r: Real)
    requires OptionsFit(o)
    ensures HandleApdu(d, t, WriteApdu(o, invokeId, i, r))
            == if i in t && 0x3F !in r
               then Effect(Reply([SIMPLE_ACK, invokeId, WRITE_PROPERTY]), SetPresent(t, i, r))
               else Effect(Nothing, t)
  {
    hide EncodeWrite, EncodeApplicationReal, HandleWriteProperty, HandleReadProperty, HandleUnconfirmed, IndexFits;
    var apdu := WriteApdu(o, invokeId, i, r);
    PresentValueWrite(t, invokeId, i, r, o.index, o.trailing);
    assert apdu[4..] == EncodeWrite(ANALOG_VALUE, i, PROPERTY_PRESENT_VALUE, o.index, EncodeApplicationReal(r),
                                    o.trailing);
  }

  /** A read of any property answers with the encoded property under the request's invoke id. */
  lemma ReadApduHandled(d: Device, t: Table, o: Options, invokeId: Byte, kind: ObjectType, i: ObjectInstance, p: nat)
    requires OptionsFit(o) && TagEncodable(p)
    ensures HandleApdu(d, t, ReadApdu(o, invokeId, kind, i, p))
            == match ReadProperty(d, t, kind, i, p)
               case Reply(value) =>
                 Effect(Reply([COMPLEX_ACK, invokeId, READ_PROPERTY] + EncodeAck(kind, i, p, value)), t)
               case Nothing => Effect(Nothing, t)
               case Raise => Effect(Raise, t)
  {
    hide EncodeAck, EncodeReference, ReadProperty, HandleWriteProperty, HandleUnconfirmed, ParsePropertyReference;
    hide IndexFits, TagEncodable;
    ReadRequestParses(kind, i, p, o.index);
    assert ReadApdu(o, invokeId, kind, i, p)[4..] == EncodeReference(kind, i, p, o.index);
  }

  /**
   * The whole stack: a WriteProperty of a present value is acknowledged, with its invoke id, exactly
   * when the instance exists and none of the four octets is 0x3F, whatever its index and the octets
   * behind its value. A later ReadProperty answers the written octets, and if the write was not
   * acknowledged the table is what it was.
   */
  lemma WriteThenRead(d: Device, t: Table, route: Route, flags: Byte, o: Options, invokeId: Byte, i: ObjectInstance,
                      r: Real, readId: Byte)
    requires RouteFits(route) && PlainFlags(flags) && OptionsFit(o)
    requires 4 + |EncodeNpdu(route, flags, WriteApdu(o, invokeId, i, r))| < 0x1_0000
    ensures var write := EncodeNpdu(route, flags, WriteApdu(o, invokeId, i, r));
            var e := HandleDatagram(d, t, EncodeDatagram(ORIGINAL_UNICAST, write));
            var ack: seq<Byte> := [1, 0, 0x20, invokeId, 0x0F];
            && (e.outcome == Reply(EncodeDatagram(ORIGINAL_UNICAST, ack)) <==> i in t && 0x3F !in r)
            && e.table == (if i in t && 0x3F !in r then SetPresent(t, i, r) else t)
            && (!(i in t && 0x3F !in r) ==> e.outcome == Nothing)
    ensures i in t && AnalogEncodable(t[i]) ==>
              var read := EncodeNpdu(route, flags, ReadApdu(o, readId, ANALOG_VALUE, i, PROPERTY_PRESENT_VALUE));
              && 4 + |read| < 0x1_0000
              && TagEncodable(PROPERTY_PRESENT_VALUE)
              && var t' := if 0x3F !in r then SetPresent(t, i, r) else t;
                 var value := EncodeApplicationReal(if 0x3F !in r then r else t[i].presentValue);
                 HandleDatagram(d, t', EncodeDatagram(ORIGINAL_UNICAST, read))
                 == Effect(Wrapped(Reply([COMPLEX_ACK, readId, READ_PROPERTY]
                                         + EncodeAck(ANALOG_VALUE, i, PROPERTY_PRESENT_VALUE, value))), t')
  {
    hide EncodeNpdu, EncodeDatagram, HandleApdu, HandleDatagram, EncodeAck, WriteApdu, ReadApdu;
    hide Wrapped, ReadProperty, EncodeApplicationReal, OptionsFit;
    ReadLength(route, flags, o, readId, ANALOG_VALUE, i, PROPERTY_PRESENT_VALUE);
    EnvelopeDoesNotMatter(d, t, ORIGINAL_UNICAST, route, flags, WriteApdu(o, invokeId, i, r));
    WriteApduHandled(d, t, o, invokeId, i, r);
    SimpleAckWrapped(invokeId);
    if i in t && AnalogEncodable(t[i]) {
      var t' := if 0x3F !in r then SetPresent(t, i, r) else t;
      EnvelopeDoesNotMatter(d, t', ORIGINAL_UNICAST, route, flags,
                            ReadApdu(o, readId, ANALOG_VALUE, i, PROPERTY_PRESENT_VALUE));
      ReadApduHandled(d, t', o, readId, ANALOG_VALUE, i, PROPERTY_PRESENT_VALUE);
      PresentValueRead(d, t', i);
    }
  }

  /** The value 1.0 is never written, to whatever instance. */
  lemma OneIsRefused(d: Device, t: Table, invokeId: Byte, i: ObjectInstance)
    ensures var write := EncodeNpdu(Direct, 0, WriteApdu(PLAIN, invokeId, i, [0x3F, 0x80, 0x00, 0x00]));
            4 + |write| < 0x1_0000
            && HandleDatagram(d, t, EncodeDatagram(ORIGINAL_UNICAST, write)) == Effect(Nothing, t)
  {
    hide HandleDatagram, EncodeNpdu, EncodeDatagram, WriteApdu;
    WriteLength(Direct, 0, PLAIN, invokeId, i, [0x3F, 0x80, 0x00, 0x00]);
    WriteThenRead(d, t, Direct, 0, PLAIN, invokeId, i, [0x3F, 0x80, 0x00, 0x00], 0);
  }

  lemma PresentValueRead(d: Device, t: Table, i: ObjectInstance)
    requires i in t && AnalogEncodable(t[i])
    ensures ReadProperty(d, t, ANALOG_VALUE, i, PROPERTY_PRESENT_VALUE)
            == Reply(EncodeApplicationReal(t[i].presentValue))
  {
  }

  lemma SimpleAckWrapped(invokeId: Byte)
    ensures Wrapped(Reply([SIMPLE_ACK, invokeId, WRITE_PROPERTY]))
            == Reply(EncodeDatagram(ORIGINAL_UNICAST, [NPDU_VERSION, 0, SIMPLE_ACK, invokeId, WRITE_PROPERTY]))
    ensures Wrapped(Nothing) == Nothing
  {
    assert [NPDU_VERSION, 0] + [SIMPLE_ACK, invokeId, WRITE_PROPERTY]
        == [NPDU_VERSION, 0, SIMPLE_ACK, invokeId, WRITE_PROPERTY];
  }

  lemma ReadLength(route: Route, flags: Byte, o: Options, invokeId: Byte, kind: ObjectType, i: ObjectInstance, p: nat)
    requires RouteFits(route) && PlainFlags(flags) && OptionsFit(o) && TagEncodable(p)
    ensures |EncodeNpdu(route, flags, ReadApdu(o, invokeId, kind, i, p))| < 0x400
  {
    hide EncodeUnsigned;
  }

  lemma WriteLength(route: Route, flags: Byte, o: Options, invokeId: Byte, i: ObjectInstance, r: Real)
    requires RouteFits(route) && PlainFlags(flags) && OptionsFit(o)
    ensures |EncodeNpdu(route, flags, WriteApdu(o, invokeId, i, r))| < 0x400 + |o.trailing|
  {
    hide EncodeUnsigned;
    SmallIsOneOctet(PROPERTY_PRESENT_VALUE);
  }
}
