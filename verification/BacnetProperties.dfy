/** ReadProperty from datagram to datagram: which property of which object a client gets, and when it gets none. */
module BacnetProperties {
  import opened Wrappers
  import opened Bytes
  import opened BacnetTags
  import opened BacnetStack
  import opened BacnetRequests
  import opened BacnetReplies
  import opened BacnetWire

  const DEVICE_PROPERTIES: set<nat> := {28, 62, 70, 75, 76, 77, 79, 98, 99, 107, 120, 121}

  const ANALOG_PROPERTIES: set<nat> := {28, 75, 77, 79, 85, 111, 117}

  /** What a client finds under each property of the device, by the numbers of clause 21 of ASHRAE 135. */
  predicate DeviceTells(d: Device, p: nat, value: seq<Byte>) {
    match p
    case 28 => TellsString(value, d.description)
    case 62 => TellsNumber(value, 2, d.maxApdu)
    case 70 => TellsString(value, d.modelName)
    case 75 => TellsObject(value, ObjectId(8, d.instance))
    case 76 => TellsObject(value, ObjectId(8, d.instance))
    case 77 => TellsString(value, d.objectName)
    case 79 => TellsNumber(value, 9, 8)
    case 98 => TellsNumber(value, 2, d.protocolVersion)
    case 99 => TellsNumber(value, 2, d.protocolRevision)
    case 107 => TellsNumber(value, 9, d.segmentation)
    case 120 => TellsNumber(value, 2, d.vendorIdentifier)
    case 121 => TellsString(value, d.vendorName)
    case _ => false
  }

  /** The same for an analog value; its status flags are cleared bits. */
  predicate AnalogTells(a: Analog, p: nat, value: seq<Byte>) {
    match p
    case 28 => TellsString(value, a.description)
    case 75 => TellsObject(value, ObjectId(2, a.instance))
    case 77 => TellsString(value, a.objectName)
    case 79 => TellsNumber(value, 9, 2)
    case 85 => value == [0x44] + a.presentValue
    case 111 => OpenValue(value) == Some(Content(8, [0, 0]))
    case 117 => TellsNumber(value, 9, a.units)
    case _ => false
  }

  /** Strings of at most 254 characters and numbers below 256^255 can be encoded. */
  predicate DeviceFits(d: Device) {
    && |d.objectName| <= 254 && |d.description| <= 254 && |d.vendorName| <= 254 && |d.modelName| <= 254
    && d.vendorIdentifier < Pow256(255) && d.maxApdu < Pow256(255) && d.segmentation < Pow256(255)
    && d.protocolVersion < Pow256(255) && d.protocolRevision < Pow256(255)
  }

  predicate AnalogFits(a: Analog) {
    |a.objectName| <= 254 && |a.description| <= 254 && a.units < Pow256(255)
  }

  lemma FitsExactly(d: Device, a: Analog)
    ensures DeviceEncodable(d) <==> DeviceFits(d)
    ensures AnalogEncodable(a) <==> AnalogFits(a)
  {
    hide TagEncodable, Pow256;
    EncodableExactly(d.vendorIdentifier);
    EncodableExactly(d.maxApdu);
    EncodableExactly(d.segmentation);
    EncodableExactly(d.protocolVersion);
    EncodableExactly(d.protocolRevision);
    EncodableExactly(a.units);
  }

  lemma DevicePropertyTold(d: Device, p: nat)
    requires DeviceFits(d)
    ensures DeviceEncodable(d)
    ensures EncodeDeviceProperty(d, p).Some? <==> p in DEVICE_PROPERTIES
    ensures p in DEVICE_PROPERTIES ==> DeviceTells(d, p, EncodeDeviceProperty(d, p).value)
  {
    hide DeviceFits, TellsString, TellsNumber, TellsObject, EncodeTagged, EncodeUnsigned;
    FitsExactly(d, Analog(0, [], [], [0, 0, 0, 0], 0));
    ClientReadsDevice(d);
  }

  lemma StatusFlagsTold()
    ensures OpenValue(EncodeApplicationBitString([0])) == Some(Content(8, [0, 0]))
  {
    assert [0] + [0] == [0, 0];
    OpensTagged(BIT_STRING, [0, 0]);
  }

  lemma AnalogPropertyTold(a: Analog, p: nat)
    requires AnalogFits(a)
    ensures AnalogEncodable(a)
    ensures EncodeAnalogProperty(a, p).Some? <==> p in ANALOG_PROPERTIES
    ensures p in ANALOG_PROPERTIES ==> AnalogTells(a, p, EncodeAnalogProperty(a, p).value)
  {
    hide AnalogFits, TellsString, TellsNumber, TellsObject, EncodeUnsigned, EncodeTagged, OpenValue;
    FitsExactly(Device(0, [], [], [], 0, [], 0, 0, 0, 0), a);
    ClientReadsAnalog(a);
    StatusFlagsTold();
    TagOctets(0, 0, a.presentValue, []);
  }

  // ---------------------------------------------------------------- from datagram to datagram

  /** The object and the property exist. */
  predicate Exists(d: Device, t: Table, kind: ObjectType, i: ObjectInstance, p: nat) {
    (kind == 8 && i == d.instance && p in DEVICE_PROPERTIES) || (kind == 2 && i in t && p in ANALOG_PROPERTIES)
  }

  /** The object exists, but not all of its properties can be encoded: then none can be read. */
  predicate Unencodable(d: Device, t: Table, kind: ObjectType, i: ObjectInstance) {
    (kind == 8 && i == d.instance && !DeviceFits(d)) || (kind == 2 && i in t && !AnalogFits(t[i]))
  }

  predicate Tells(d: Device, t: Table, kind: ObjectType, i: ObjectInstance, p: nat, value: seq<Byte>) {
    if kind == 8 then DeviceTells(d, p, value) else i in t && AnalogTells(t[i], p, value)
  }

  lemma PropertyTold(d: Device, t: Table, kind: ObjectType, i: ObjectInstance, p: nat)
    ensures var r := ReadProperty(d, t, kind, i, p);
            && (r.Raise? <==> Unencodable(d, t, kind, i))
            && (r.Reply? <==> Exists(d, t, kind, i, p) && !Unencodable(d, t, kind, i))
            && (r.Reply? ==> Tells(d, t, kind, i, p, r.value))
  {
    hide DeviceFits, AnalogFits, DeviceTells, AnalogTells, DeviceEncodable, AnalogEncodable;
    hide EncodeDeviceProperty, EncodeAnalogProperty;
    FitsExactly(d, if i in t then t[i] else Analog(0, [], [], [0, 0, 0, 0], 0));
    if DeviceFits(d) {
      DevicePropertyTold(d, p);
    }
    if i in t && AnalogFits(t[i]) {
      AnalogPropertyTold(t[i], p);
    }
  }

  /**
   * A ReadProperty datagram, in any envelope, is answered exactly if the object and the property
   * exist, and the reply, octet by octet, names the request and tells that property. Nothing else is
   * answered, and reading changes nothing.
   */
  lemma ReadAnswered(d: Device, t: Table, bvlcFunction: Byte, route: Route, flags: Byte, o: Options, invokeId: Byte,
                     kind: ObjectType, i: ObjectInstance, p: nat)
    returns (value: seq<Byte>)
    requires RouteFits(route) && PlainFlags(flags) && OptionsFit(o) && TagEncodable(p)
    requires bvlcFunction == 0x0A || bvlcFunction == 0x0B
    ensures |EncodeNpdu(route, flags, ReadApdu(o, invokeId, kind, i, p))| + 4 < 0x1_0000
    ensures var request := EncodeDatagram(bvlcFunction, EncodeNpdu(route, flags, ReadApdu(o, invokeId, kind, i, p)));
            var e := HandleDatagram(d, t, request);
            && e.table == t
            && (e.outcome.Raise? <==> Unencodable(d, t, kind, i))
            && (e.outcome.Reply? <==> Exists(d, t, kind, i, p) && !Unencodable(d, t, kind, i))
            && (e.outcome.Reply? ==>
                  && p < 0x100 && |value| <= 257
                  && e.outcome == Reply(ReplyOctets(ReadAck(invokeId, kind, i, p, value)))
                  && Tells(d, t, kind, i, p, value))
  {
    hide EncodeNpdu, EncodeDatagram, HandleApdu, HandleDatagram, EncodeAck, ReadApdu, Wrapped, ReadProperty;
    hide OptionsFit, TagEncodable, Exists, Unencodable, Tells, ReadAck, ReplyOctets, RouteFits;
    ReadLength(route, flags, o, invokeId, kind, i, p);
    EnvelopeDoesNotMatter(d, t, bvlcFunction, route, flags, ReadApdu(o, invokeId, kind, i, p));
    ReadApduHandled(d, t, o, invokeId, kind, i, p);
    PropertyTold(d, t, kind, i, p);
    PropertyLength(d, t, kind, i, p);
    NothingWrapped();
    value := [];
    if ReadProperty(d, t, kind, i, p).Reply? {
      value := ReadProperty(d, t, kind, i, p).value;
      ReadAckOctets(invokeId, kind, i, p, value);
      ReadAckLength(invokeId, kind, i, p, value);
      WrappedOctets(ReadAck(invokeId, kind, i, p, value));
    }
  }

  lemma ReadAckLength(invokeId: Byte, kind: ObjectType, i: ObjectInstance, p: Byte, value: seq<Byte>)
    ensures |ReadAck(invokeId, kind, i, p, value)| == 12 + |value|
  {
  }

  // ---------------------------------------------------------------- every confirmed request

  /** A ReadProperty in any form the server understands, with the invoke id of the request. */
  lemma ReadRequestAnswered(d: Device, t: Table, apdu: seq<Byte>, target: seq<Byte>, property: seq<Byte>,
                            index: seq<Byte>, reference: Reference)
    returns (value: seq<Byte>)
    requires |apdu| >= 4 && apdu[0] / 0x10 == 0 && apdu[3] == 0x0C
    requires IsReference(target, property, index, reference) && apdu[4..] == target + (property + index)
    ensures var Reference(ObjectId(kind, i), p) := reference;
            var e := HandleApdu(d, t, apdu);
            && e.table == t
            && (e.outcome.Raise? <==> Unencodable(d, t, kind, i))
            && (e.outcome.Reply? <==> Exists(d, t, kind, i, p) && !Unencodable(d, t, kind, i))
            && (e.outcome.Reply? ==> p < 0x100 && e.outcome == Reply(ReadAck(apdu[2], kind, i, p, value))
                                     && Tells(d, t, kind, i, p, value))
  {
    hide IsReference, ParsePropertyReference, ReadProperty, EncodeAck, TagEncodable, Exists, Unencodable, Tells;
    hide ReadAck;
    var Reference(ObjectId(kind, i), p) := reference;
    ReadExactly(apdu[4..], reference);
    PropertyTold(d, t, kind, i, p);
    value := [];
    if ReadProperty(d, t, kind, i, p).Reply? {
      value := ReadProperty(d, t, kind, i, p).value;
      ReadAckOctets(apdu[2], kind, i, p, value);
    }
  }

  /**
   * A WriteProperty in any form the server understands is accepted exactly if it writes a REAL to
   * the present value of a known analog value, and then only that value changes.
   */
  lemma WriteRequestAnswered(d: Device, t: Table, apdu: seq<Byte>, target: seq<Byte>, property: seq<Byte>,
                             index: seq<Byte>, trailing: seq<Byte>, request: WriteRequest)
    requires |apdu| >= 4 && apdu[0] / 0x10 == 0 && apdu[3] == 0x0F
    requires IsWrite(apdu[4..], target, property, index, trailing, request)
    ensures var WriteRequest(Reference(ObjectId(kind, i), p), value) := request;
            HandleApdu(d, t, apdu)
            == if kind == 2 && p == 85 && i in t && |value| == 5 && value[0] == 0x44
               then Effect(Reply([0x20, apdu[2], 0x0F]), t[i := t[i].(presentValue := value[1..])])
               else Effect(Nothing, t)
  {
    hide IsWrite, ParseWriteRequest;
    WriteExactly(apdu[4..], request);
    var value := request.value;
    assert |value| == 5 ==> value[1..5] == value[1..];
  }

  /** A ReadProperty that is not understood is not answered; it raises if it stops at a dangling tag. */
  lemma OtherReadSilent(d: Device, t: Table, apdu: seq<Byte>)
    requires |apdu| >= 4 && apdu[0] / 0x10 == 0 && apdu[3] == 0x0C
    requires forall target, property, index, reference :: IsReference(target, property, index, reference) ==>
               apdu[4..] != target + (property + index)
    ensures HandleApdu(d, t, apdu) == Effect(if DanglingReference(apdu[4..]) then Raise else Nothing, t)
  {
    hide IsReference, ParseReference, DanglingReference;
    ReferenceRaisesExactly(apdu[4..]);
    if ParsePropertyReference(apdu[4..]).Reply? {
      ReadExactly(apdu[4..], ParsePropertyReference(apdu[4..]).value);
    }
  }

  /** The same for a WriteProperty. */
  lemma OtherWriteSilent(d: Device, t: Table, apdu: seq<Byte>)
    requires |apdu| >= 4 && apdu[0] / 0x10 == 0 && apdu[3] == 0x0F
    requires forall target, property, index, trailing, request ::
               !IsWrite(apdu[4..], target, property, index, trailing, request)
    ensures HandleApdu(d, t, apdu) == Effect(if DanglingReference(apdu[4..]) then Raise else Nothing, t)
  {
    hide IsWrite, ParseReference, DanglingReference, Find;
    ReferenceRaisesExactly(apdu[4..]);
    if ParseWriteRequest(apdu[4..]).Reply? {
      WriteExactly(apdu[4..], ParseWriteRequest(apdu[4..]).value);
    }
  }
}
