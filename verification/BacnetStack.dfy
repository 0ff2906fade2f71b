/** The BACnet/IP layers over values: BVLC, NPDU, APDU, the two property services and discovery. */
module BacnetStack {
  import opened Wrappers
  import opened Bytes
  import opened BacnetTags

  const ANALOG_VALUE: ObjectType := 2
  const DEVICE: ObjectType := 8

  const PROPERTY_DESCRIPTION := 28
  const PROPERTY_MAX_APDU := 62
  const PROPERTY_MODEL_NAME := 70
  const PROPERTY_OBJECT_IDENTIFIER := 75
  const PROPERTY_OBJECT_LIST := 76
  const PROPERTY_OBJECT_NAME := 77
  const PROPERTY_OBJECT_TYPE := 79
  const PROPERTY_PRESENT_VALUE := 85
  const PROPERTY_PROTOCOL_VERSION := 98
  const PROPERTY_PROTOCOL_REVISION := 99
  const PROPERTY_SEGMENTATION := 107
  const PROPERTY_STATUS_FLAGS := 111
  const PROPERTY_UNITS := 117
  const PROPERTY_VENDOR_IDENTIFIER := 120
  const PROPERTY_VENDOR_NAME := 121

  const READ_PROPERTY: Byte := 0x0C
  const WRITE_PROPERTY: Byte := 0x0F
  const WHO_IS: Byte := 0x08
  const I_AM: Byte := 0x00

  const SIMPLE_ACK: Byte := 0x20
  const COMPLEX_ACK: Byte := 0x30
  const UNCONFIRMED_REQUEST: Byte := 0x10

  /** Strings are the ASCII octets of the configured ones. */
  datatype Device = Device(
    instance: ObjectInstance, objectName: seq<Byte>, description: seq<Byte>, vendorName: seq<Byte>,
    vendorIdentifier: nat, modelName: seq<Byte>, maxApdu: nat, segmentation: nat,
    protocolVersion: nat, protocolRevision: nat)

  datatype Analog = Analog(
    instance: ObjectInstance, objectName: seq<Byte>, description: seq<Byte>, presentValue: Real, units: nat)

  type Table = map<nat, Analog>

  /** Nothing to send, something to send, or an exception that ends the datagram's handler. */
  datatype Outcome<+T> = Nothing | Reply(value: T) | Raise

  // ---------------------------------------------------------------- reading

  predicate StringFits(s: seq<Byte>) {
    |s| < 0xFF
  }

  /** Every property is encoded before one is picked, so one that cannot be encoded fails any read. */
  predicate DeviceEncodable(d: Device) {
    && StringFits(d.objectName) && StringFits(d.description) && StringFits(d.vendorName) && StringFits(d.modelName)
    && TagEncodable(d.vendorIdentifier) && TagEncodable(d.maxApdu) && TagEncodable(d.segmentation)
    && TagEncodable(d.protocolVersion) && TagEncodable(d.protocolRevision)
  }

  predicate AnalogEncodable(a: Analog) {
    StringFits(a.objectName) && StringFits(a.description) && TagEncodable(a.units)
  }

  function EncodeDeviceProperty(d: Device, p: nat): Option<seq<Byte>>
    requires DeviceEncodable(d)
  {
    if p == PROPERTY_OBJECT_IDENTIFIER then Some(EncodeApplicationObject(DEVICE, d.instance))
    else if p == PROPERTY_OBJECT_NAME then Some(EncodeApplicationCharacterString(d.objectName))
    else if p == PROPERTY_OBJECT_TYPE then SmallIsOneOctet(DEVICE); Some(EncodeApplicationEnumerated(DEVICE))
    else if p == PROPERTY_DESCRIPTION then Some(EncodeApplicationCharacterString(d.description))
    else if p == PROPERTY_VENDOR_NAME then Some(EncodeApplicationCharacterString(d.vendorName))
    else if p == PROPERTY_VENDOR_IDENTIFIER then Some(EncodeApplicationUnsigned(d.vendorIdentifier))
    else if p == PROPERTY_MODEL_NAME then Some(EncodeApplicationCharacterString(d.modelName))
    else if p == PROPERTY_MAX_APDU then Some(EncodeApplicationUnsigned(d.maxApdu))
    else if p == PROPERTY_SEGMENTATION then Some(EncodeApplicationEnumerated(d.segmentation))
    else if p == PROPERTY_PROTOCOL_VERSION then Some(EncodeApplicationUnsigned(d.protocolVersion))
    else if p == PROPERTY_PROTOCOL_REVISION then Some(EncodeApplicationUnsigned(d.protocolRevision))
    else if p == PROPERTY_OBJECT_LIST then Some(EncodeApplicationObject(DEVICE, d.instance))
    else None
  }

  function EncodeAnalogProperty(a: Analog, p: nat): Option<seq<Byte>>
    requires AnalogEncodable(a)
  {
    if p == PROPERTY_OBJECT_IDENTIFIER then Some(EncodeApplicationObject(ANALOG_VALUE, a.instance))
    else if p == PROPERTY_OBJECT_NAME then Some(EncodeApplicationCharacterString(a.objectName))
    else if p == PROPERTY_OBJECT_TYPE then
      SmallIsOneOctet(ANALOG_VALUE); Some(EncodeApplicationEnumerated(ANALOG_VALUE))
    else if p == PROPERTY_DESCRIPTION then Some(EncodeApplicationCharacterString(a.description))
    else if p == PROPERTY_PRESENT_VALUE then Some(EncodeApplicationReal(a.presentValue))
    else if p == PROPERTY_UNITS then Some(EncodeApplicationEnumerated(a.units))
    else if p == PROPERTY_STATUS_FLAGS then Some(EncodeApplicationBitString([0]))
    else None
  }

  function Picked(property: Option<seq<Byte>>): Outcome<seq<Byte>> {
    match property
    case None => Nothing
    case Some(bytes) => Reply(bytes)
  }

  function ReadDeviceProperty(d: Device, p: nat): Outcome<seq<Byte>> {
    if !DeviceEncodable(d) then Raise else Picked(EncodeDeviceProperty(d, p))
  }

  function ReadAnalogProperty(t: Table, i: nat, p: nat): Outcome<seq<Byte>> {
    if i !in t then Nothing
    else if !AnalogEncodable(t[i]) then Raise
    else Picked(EncodeAnalogProperty(t[i], p))
  }

  function ReadProperty(d: Device, t: Table, kind: ObjectType, i: ObjectInstance, p: nat): (r: Outcome<seq<Byte>>)
    ensures r.Reply? ==> p < 0x100
  {
    if kind == DEVICE && i == d.instance then ReadDeviceProperty(d, p)
    else if kind == ANALOG_VALUE then ReadAnalogProperty(t, i, p)
    else Nothing
  }

  // ---------------------------------------------------------------- requests

  datatype Reference = Reference(id: ObjectId, property: nat)

  /** An object and a property identifier at the front, and the offset behind an optional array index. */
  function ParseReference(payload: seq<Byte>): (r: Outcome<(Reference, nat)>)
    ensures r.Reply? ==> r.value.1 <= |payload|
  {
    match DecodeContextObject(payload, 0, 0)
    case Absent => Nothing
    case IndexError => Raise
    case Value(id, afterObject) =>
      match DecodeContextUnsigned(payload, afterObject, 1)
      case Absent => Nothing
      case IndexError => Raise
      case Value(property, afterProperty) =>
        if afterProperty < |payload| && IsContextTag(payload[afterProperty], 2) then
          match DecodeContextUnsigned(payload, afterProperty, 2)
          case Absent => Reply((Reference(id, property), afterProperty))
          case IndexError => Raise
          case Value(_, next) => Reply((Reference(id, property), next))
        else Reply((Reference(id, property), afterProperty))
  }

  function ParsePropertyReference(payload: seq<Byte>): Outcome<Reference> {
    match ParseReference(payload)
    case Nothing => Nothing
    case Raise => Raise
    case Reply((reference, offset)) => if offset != |payload| then Nothing else Reply(reference)
  }

  /** The first position of the octet from an offset on. */
  function Find(payload: seq<Byte>, octet: Byte, from: nat): (r: Option<nat>)
    requires from <= |payload|
    ensures r.Some? ==> from <= r.value < |payload| && payload[r.value] == octet && octet !in payload[from..r.value]
    ensures r.None? ==> octet !in payload[from..]
    decreases |payload| - from
  {
    if from == |payload| then None
    else if payload[from] == octet then Some(from)
    else
      var r := Find(payload, octet, from + 1);
      assert payload[from..] == [payload[from]] + payload[from + 1..];
      assert r.Some? ==> payload[from..r.value] == [payload[from]] + payload[from + 1..r.value];
      r
  }

  datatype WriteRequest = WriteRequest(reference: Reference, value: seq<Byte>)

  /** The value runs up to the first octet equal to the closing tag. */
  function ParseWriteRequest(payload: seq<Byte>): Outcome<WriteRequest> {
    match ParseReference(payload)
    case Nothing => Nothing
    case Raise => Raise
    case Reply((reference, offset)) =>
      if offset >= |payload| || payload[offset] != OpeningTag(3) then Nothing
      else
        match Find(payload, ClosingTag(3), offset + 1)
        case None => Nothing
        case Some(end) => Reply(WriteRequest(reference, payload[offset + 1..end]))
  }

  /** Reads the two Who-Is limits, which are given as application tags. */
  function ParseWhoIsLimits(payload: seq<Byte>): Outcome<(Option<nat>, Option<nat>)> {
    if payload == [] then Reply((None, None))
    else
      match DecodeApplicationUnsigned(payload, 0)
      case Absent => Reply((None, None))
      case IndexError => Raise
      case Value(lower, next) =>
        match DecodeApplicationUnsigned(payload, next)
        case Absent => Reply((Some(lower), None))
        case IndexError => Raise
        case Value(upper, _) => Reply((Some(lower), Some(upper)))
  }

  // ---------------------------------------------------------------- services

  /** What a datagram leads to: its outcome and the table afterwards. */
  datatype Effect = Effect(outcome: Outcome<seq<Byte>>, table: Table)

  function EncodeAck(kind: ObjectType, i: ObjectInstance, p: nat, value: seq<Byte>): seq<Byte>
    requires TagEncodable(p)
  {
    EncodeContextObject(0, kind, i) + EncodeContextUnsigned(1, p) + [OpeningTag(3)] + value + [ClosingTag(3)]
  }

  function HandleReadProperty(d: Device, t: Table, invokeId: Byte, payload: seq<Byte>): Outcome<seq<Byte>> {
    match ParsePropertyReference(payload)
    case Nothing => Nothing
    case Raise => Raise
    case Reply(Reference(ObjectId(kind, i), p)) =>
      match ReadProperty(d, t, kind, i, p)
      case Nothing => Nothing
      case Raise => Raise
      case Reply(value) =>
        SmallIsOneOctet(p);
        Reply([COMPLEX_ACK, invokeId, READ_PROPERTY] + EncodeAck(kind, i, p, value))
  }

  /** The instance and value of a write the server accepts. */
  function AcceptedWrite(t: Table, request: WriteRequest): Option<(nat, Real)> {
    var Reference(ObjectId(kind, i), p) := request.reference;
    if kind != ANALOG_VALUE || p != PROPERTY_PRESENT_VALUE then None
    else
      match DecodeApplicationReal(request.value)
      case None => None
      case Some(r) => if i in t then Some((i, r)) else None
  }

  function SetPresent(t: Table, i: nat, r: Real): Table
    requires i in t
  {
    t[i := t[i].(presentValue := r)]
  }

  function HandleWriteProperty(t: Table, invokeId: Byte, payload: seq<Byte>): Effect {
    match ParseWriteRequest(payload)
    case Nothing => Effect(Nothing, t)
    case Raise => Effect(Raise, t)
    case Reply(request) =>
      match AcceptedWrite(t, request)
      case None => Effect(Nothing, t)
      case Some((i, r)) => Effect(Reply([SIMPLE_ACK, invokeId, WRITE_PROPERTY]), SetPresent(t, i, r))
  }

  predicate IAmEncodable(d: Device) {
    TagEncodable(d.maxApdu) && TagEncodable(d.segmentation) && TagEncodable(d.vendorIdentifier)
  }

  function EncodeIAm(d: Device): seq<Byte>
    requires IAmEncodable(d)
  {
    [UNCONFIRMED_REQUEST, I_AM] + EncodeApplicationObject(DEVICE, d.instance) + EncodeApplicationUnsigned(d.maxApdu)
    + EncodeApplicationEnumerated(d.segmentation) + EncodeApplicationUnsigned(d.vendorIdentifier)
  }

  function HandleUnconfirmed(d: Device, apdu: seq<Byte>): Outcome<seq<Byte>>
    requires |apdu| >= 2
  {
    if apdu[1] != WHO_IS then Nothing
    else
      match ParseWhoIsLimits(apdu[2..])
      case Nothing => Nothing
      case Raise => Raise
      case Reply((lower, upper)) =>
        if lower.Some? && d.instance < lower.value then Nothing
        else if upper.Some? && d.instance > upper.value then Nothing
        else if !IAmEncodable(d) then Raise
        else Reply(EncodeIAm(d))
  }

  function HandleConfirmed(d: Device, t: Table, apdu: seq<Byte>): Effect {
    if |apdu| < 4 then Effect(Nothing, t)
    else
      var invokeId, service, request := apdu[2], apdu[3], apdu[4..];
      if service == READ_PROPERTY then Effect(HandleReadProperty(d, t, invokeId, request), t)
      else if service == WRITE_PROPERTY then HandleWriteProperty(t, invokeId, request)
      else Effect(Nothing, t)
  }

  /** The PDU type is the high half of the first octet. */
  function HandleApdu(d: Device, t: Table, apdu: seq<Byte>): Effect {
    if |apdu| < 2 then Effect(Nothing, t)
    else if apdu[0] / 0x10 == 1 then Effect(HandleUnconfirmed(d, apdu), t)
    else if apdu[0] / 0x10 == 0 then HandleConfirmed(d, t, apdu)
    else Effect(Nothing, t)
  }

  // ---------------------------------------------------------------- envelopes

  const NPDU_VERSION: Byte := 0x01
  const BVLC_BACNET_IP: Byte := 0x81
  const ORIGINAL_UNICAST: Byte := 0x0A
  const ORIGINAL_BROADCAST: Byte := 0x0B

  predicate HasDestination(control: Byte) { control / 0x20 % 2 == 1 }

  predicate HasSource(control: Byte) { control / 0x08 % 2 == 1 }

  predicate IsNetworkMessage(control: Byte) { control / 0x80 % 2 == 1 }

  /** Where the APDU starts; `None` when the NPDU is refused. The hop count is taken with the destination. */
  function ApduOffset(npdu: seq<Byte>): (r: Option<nat>)
    ensures r.Some? ==> r.value <= |npdu|
  {
    if |npdu| < 2 || npdu[0] != NPDU_VERSION then None
    else
      var control := npdu[1];
      if HasDestination(control) && |npdu| < 5 then None
      else
        var afterDestination := if HasDestination(control) then 2 + 3 + npdu[4] as int + 1 else 2;
        if HasSource(control) && |npdu| < afterDestination + 3 then None
        else
          var afterSource :=
            if HasSource(control) then afterDestination + 3 + npdu[afterDestination + 2] as int else afterDestination;
          var offset := if IsNetworkMessage(control) then afterSource + 1 else afterSource;
          if |npdu| < offset then None else Some(offset)
  }

  function WrapNpdu(apdu: Outcome<seq<Byte>>): Outcome<seq<Byte>> {
    match apdu
    case Reply(bytes) => Reply([NPDU_VERSION, 0x00] + bytes)
    case other => other
  }

  function HandleNpdu(d: Device, t: Table, npdu: seq<Byte>): Effect {
    match ApduOffset(npdu)
    case None => Effect(Nothing, t)
    case Some(offset) =>
      var e := HandleApdu(d, t, npdu[offset..]);
      e.(outcome := WrapNpdu(e.outcome))
  }

  /** The NPDU of a datagram the server accepts. */
  function UnwrapBvlc(payload: seq<Byte>): Option<seq<Byte>> {
    if |payload| < 4 || payload[0] != BVLC_BACNET_IP then None
    else if payload[1] != ORIGINAL_UNICAST && payload[1] != ORIGINAL_BROADCAST then None
    else if UnpackU16Be(payload, 2) != |payload| then None
    else Some(payload[4..])
  }

  /** Packing the length raises when it does not fit 16 bits. */
  function BuildBvlc(bvlcFunction: Byte, npdu: seq<Byte>): Outcome<seq<Byte>> {
    if 4 + |npdu| >= 0x1_0000 then Raise
    else Reply([BVLC_BACNET_IP, bvlcFunction] + PackU16Be(4 + |npdu|) + npdu)
  }

  function WrapBvlc(npdu: Outcome<seq<Byte>>): Outcome<seq<Byte>> {
    match npdu
    case Reply(bytes) => BuildBvlc(ORIGINAL_UNICAST, bytes)
    case other => other
  }

  function HandleDatagram(d: Device, t: Table, payload: seq<Byte>): Effect {
    match UnwrapBvlc(payload)
    case None => Effect(Nothing, t)
    case Some(npdu) =>
      var e := HandleNpdu(d, t, npdu);
      e.(outcome := WrapBvlc(e.outcome))
  }
}
