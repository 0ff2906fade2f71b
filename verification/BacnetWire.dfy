/** The datagrams the BACnet server understands, octet by octet: which it reads, and how. */
module BacnetWire {
  import opened Wrappers
  import opened Bytes
  import opened BacnetTags
  import opened BacnetStack
  import opened BacnetRequests
  import opened BacnetReplies

  // ---------------------------------------------------------------- envelopes

  /** A destination network, address and hop count, if the control octet announces them. */
  predicate IsDestination(control: Byte, d: seq<Byte>) {
    if control / 0x20 % 2 == 1 then |d| >= 4 && |d| == 4 + d[2] as int else d == []
  }

  /** A source network and address, if the control octet announces them. */
  predicate IsSource(control: Byte, s: seq<Byte>) {
    if control / 0x08 % 2 == 1 then |s| >= 3 && |s| == 3 + s[2] as int else s == []
  }

  /** The fields of an NPDU in the order the server reads them, down to the APDU. */
  predicate IsNpdu(npdu: seq<Byte>, control: Byte, d: seq<Byte>, s: seq<Byte>, m: seq<Byte>, apdu: seq<Byte>) {
    && IsDestination(control, d) && IsSource(control, s) && |m| == control / 0x80
    && npdu == [0x01, control] + (d + (s + (m + apdu)))
  }

  lemma NpduOfFields(npdu: seq<Byte>, control: Byte, d: seq<Byte>, s: seq<Byte>, m: seq<Byte>, apdu: seq<Byte>)
    requires IsNpdu(npdu, control, d, s, m, apdu)
    ensures ApduOffset(npdu) == Some(|npdu| - |apdu|) && npdu[|npdu| - |apdu|..] == apdu
  {
  }

  lemma Cut(s: seq<Byte>, i: nat, j: nat)
    requires i <= j <= |s|
    ensures s[i..] == s[i..j] + s[j..]
  {
  }

  /** Where the fields of an NPDU end. */
  lemma FieldEnds(npdu: seq<Byte>) returns (afterD: nat, afterS: nat)
    requires ApduOffset(npdu).Some?
    ensures |npdu| >= 2 && npdu[0] == 0x01 && 2 <= afterD <= afterS <= ApduOffset(npdu).value
    ensures IsDestination(npdu[1], npdu[2..afterD]) && IsSource(npdu[1], npdu[afterD..afterS])
    ensures ApduOffset(npdu).value - afterS == npdu[1] / 0x80
  {
    var control := npdu[1];
    afterD := if HasDestination(control) then 6 + npdu[4] as int else 2;
    afterS := if HasSource(control) then afterD + 3 + npdu[afterD + 2] as int else afterD;
  }

  lemma FieldsOfNpdu(npdu: seq<Byte>) returns (d: seq<Byte>, s: seq<Byte>, m: seq<Byte>)
    requires ApduOffset(npdu).Some?
    ensures |npdu| >= 2 && IsNpdu(npdu, npdu[1], d, s, m, npdu[ApduOffset(npdu).value..])
  {
    hide ApduOffset, IsDestination, IsSource;
    var offset := ApduOffset(npdu).value;
    var afterD, afterS := FieldEnds(npdu);
    d, s, m := npdu[2..afterD], npdu[afterD..afterS], npdu[afterS..offset];
    Cut(npdu, 0, 2);
    Cut(npdu, 2, afterD);
    Cut(npdu, afterD, afterS);
    Cut(npdu, afterS, offset);
    assert npdu[0..2] == [0x01, npdu[1]];
  }

  /** The server finds an APDU exactly in the NPDUs of version 1 whose fields fit. */
  lemma NpduExactly(npdu: seq<Byte>, apdu: seq<Byte>)
    ensures ApduOffset(npdu).Some? && npdu[ApduOffset(npdu).value..] == apdu
            <==> exists control, d, s, m :: IsNpdu(npdu, control, d, s, m, apdu)
  {
    hide IsNpdu, ApduOffset;
    if ApduOffset(npdu).Some? && npdu[ApduOffset(npdu).value..] == apdu {
      var d, s, m := FieldsOfNpdu(npdu);
    }
    forall control, d, s, m | IsNpdu(npdu, control, d, s, m, apdu)
      ensures ApduOffset(npdu).Some? && npdu[ApduOffset(npdu).value..] == apdu
    {
      NpduOfFields(npdu, control, d, s, m, apdu);
    }
  }

  predicate IsDatagram(payload: seq<Byte>, f: Byte, npdu: seq<Byte>) {
    var n := 4 + |npdu|;
    n < 0x1_0000 && (f == 0x0A || f == 0x0B) && payload == [0x81, f, n / 0x100, n % 0x100] + npdu
  }

  /** The server accepts exactly the unicast and broadcast NPDUs whose length field is right. */
  lemma DatagramExactly(payload: seq<Byte>, npdu: seq<Byte>)
    ensures UnwrapBvlc(payload) == Some(npdu) <==> exists f :: IsDatagram(payload, f, npdu)
  {
    if UnwrapBvlc(payload) == Some(npdu) {
      assert payload == payload[..4] + npdu;
      assert IsDatagram(payload, payload[1], npdu);
    }
  }

  // ---------------------------------------------------------------- property requests

  /** An object identifier under context tag 0, as its four octets. */
  predicate WholeObject(value: seq<Byte>, id: ObjectId) {
    IsWholeObject(value) && value[|value| - 4..] == ObjectOctets(id.kind, id.instance)
  }

  /** A number under a context tag, in any number of octets. */
  predicate WholeUnsigned(value: seq<Byte>, tag: TagNumber, v: nat) {
    IsWhole(value) && IsContextTag(value[0], tag) && FromBytes(OpenValue(value).value.octets) == v
  }

  /** An array index, if there is one. */
  predicate IsIndex(value: seq<Byte>) {
    value == [] || (IsWhole(value) && IsContextTag(value[0], 2))
  }

  lemma ObjectDecodes(p: seq<Byte>, n: nat, id: ObjectId)
    requires n <= |p|
    ensures DecodeContextObject(p, 0, 0) == Value(id, n) <==> WholeObject(p[..n], id)
  {
    hide UnpackU32Be, UnpackObject, ObjectOctets;
    ObjectEndsAt(p, n);
    if IsWholeObject(p[..n]) {
      var raw := UnpackU32Be(p, n - 4);
      PackOfUnpackU32Be(p, n - 4);
      assert p[..n][n - 4..] == p[n - 4..n];
      UnpackedObject(raw, id);
    }
  }

  lemma UnpackedObject(raw: U32, id: ObjectId)
    ensures UnpackObject(raw) == id <==> PackU32Be(raw) == ObjectOctets(id.kind, id.instance)
  {
    hide PackU32Be, ObjectOctets;
    PackObjectRoundTrip(id.kind, id.instance);
    PackedObjectOctets(id.kind, id.instance);
    if PackU32Be(raw) == PackU32Be(PackObject(id.kind, id.instance)) {
      UnpackU32BeAt([], raw, []);
      UnpackU32BeAt([], PackObject(id.kind, id.instance), []);
    }
    if UnpackObject(raw) == id {
      assert raw == PackObject(id.kind, id.instance);
    }
  }

  lemma UnsignedDecodes(p: seq<Byte>, at: nat, n: nat, tag: TagNumber, v: nat)
    requires at <= n <= |p|
    ensures DecodeContextUnsigned(p, at, tag) == Value(v, n) <==> WholeUnsigned(p[at..n], tag, v)
  {
    hide FromBytes;
    if at < n {
      var value := p[at..n];
      var size := if value[0] % 8 != 5 then 1 else 2;
      if |value| >= size {
        assert value[size..] == p[at + size..n];
      }
    }
  }

  /** The fields of a reference, one behind the other, and what they refer to. */
  predicate IsReference(target: seq<Byte>, property: seq<Byte>, index: seq<Byte>, reference: Reference) {
    WholeObject(target, reference.id) && WholeUnsigned(property, 1, reference.property) && IsIndex(index)
  }

  lemma ReferenceOfFields(target: seq<Byte>, property: seq<Byte>, index: seq<Byte>, reference: Reference,
                          rest: seq<Byte>)
    requires IsReference(target, property, index, reference)
    requires rest == [] || !IsContextTag(rest[0], 2)
    ensures ParseReference(target + (property + (index + rest)))
            == Reply((reference, |target| + |property| + |index|))
  {
    hide DecodeContextObject, DecodeContextUnsigned, WholeObject, WholeUnsigned, IsContextTag;
    var p := target + (property + (index + rest));
    var n1, n2, n3 := |target|, |target| + |property|, |target| + |property| + |index|;
    assert p[..n1] == target && p[n1..n2] == property && p[n2..n3] == index && p[n3..] == rest;
    ObjectDecodes(p, n1, reference.id);
    UnsignedDecodes(p, n1, n2, 1, reference.property);
    if index != [] {
      assert p[n2] == index[0];
      WholeIndex(index);
      UnsignedDecodes(p, n2, n3, 2, FromBytes(OpenValue(index).value.octets));
    } else if rest != [] {
      assert p[n2] == rest[0];
    }
  }

  lemma WholeIndex(index: seq<Byte>)
    requires index != [] && IsIndex(index)
    ensures OpenValue(index).Some? && WholeUnsigned(index, 2, FromBytes(OpenValue(index).value.octets))
  {
  }

  lemma FieldsOfReference(p: seq<Byte>) returns (target: seq<Byte>, property: seq<Byte>, index: seq<Byte>)
    requires ParseReference(p).Reply?
    requires ParseReference(p).value.1 == |p| || !IsContextTag(p[ParseReference(p).value.1], 2)
    ensures var (reference, n) := ParseReference(p).value;
            IsReference(target, property, index, reference) && p == target + (property + (index + p[n..]))
  {
    hide DecodeContextObject, DecodeContextUnsigned, WholeObject, WholeUnsigned, IsContextTag;
    var (reference, n) := ParseReference(p).value;
    var n1 := DecodeContextObject(p, 0, 0).next;
    var n2 := DecodeContextUnsigned(p, n1, 1).next;
    target, property, index := p[..n1], p[n1..n2], p[n2..n];
    ObjectDecodes(p, n1, reference.id);
    UnsignedDecodes(p, n1, n2, 1, reference.property);
    if n2 < n {
      UnsignedDecodes(p, n2, n, 2, DecodeContextUnsigned(p, n2, 2).value);
      IndexOf(index, DecodeContextUnsigned(p, n2, 2).value);
    }
    Cut(p, 0, n1);
    Cut(p, n1, n2);
    Cut(p, n2, n);
  }

  lemma IndexOf(index: seq<Byte>, v: nat)
    requires WholeUnsigned(index, 2, v)
    ensures IsIndex(index)
  {
  }

  /** A read request is understood exactly if it is an target, a property and perhaps an index. */
  lemma ReadExactly(p: seq<Byte>, reference: Reference)
    ensures ParsePropertyReference(p) == Reply(reference)
            <==> exists target, property, index ::
                   IsReference(target, property, index, reference) && p == target + (property + index)
  {
    hide ParseReference, IsReference, IsContextTag;
    if ParsePropertyReference(p) == Reply(reference) {
      var target, property, index := FieldsOfReference(p);
      assert p[|p|..] == [] && index + [] == index;
    }
    forall target, property, index |
      IsReference(target, property, index, reference) && p == target + (property + index)
      ensures ParsePropertyReference(p) == Reply(reference)
    {
      assert index + [] == index;
      ReferenceOfFields(target, property, index, reference, []);
    }
  }

  /** The fields of a write request: behind the reference a value between 3E and the first 3F, then anything. */
  predicate IsWrite(p: seq<Byte>, target: seq<Byte>, property: seq<Byte>, index: seq<Byte>, trailing: seq<Byte>,
                    request: WriteRequest) {
    && IsReference(target, property, index, request.reference) && 0x3F !in request.value
    && p == target + (property + (index + ([0x3E] + (request.value + ([0x3F] + trailing)))))
  }

  lemma WriteOfFields(p: seq<Byte>, target: seq<Byte>, property: seq<Byte>, index: seq<Byte>, trailing: seq<Byte>,
                      request: WriteRequest)
    requires IsWrite(p, target, property, index, trailing, request)
    ensures ParseWriteRequest(p) == Reply(request)
  {
    hide ParseReference, IsReference, Find;
    var rest := [0x3E] + (request.value + ([0x3F] + trailing));
    ReferenceOfFields(target, property, index, request.reference, rest);
    var start := |target| + |property| + |index| + 1;
    var end := start + |request.value|;
    assert p[start - 1..] == rest;
    assert p[start..end] == request.value && p[end] == 0x3F;
    FindsFirst(p, 0x3F, start, end);
  }

  lemma WriteEnds(p: seq<Byte>) returns (end: nat)
    requires ParseWriteRequest(p).Reply?
    ensures ParseReference(p).Reply?
    ensures var (reference, n) := ParseReference(p).value;
            && n < end < |p| && p[n] == 0x3E && p[end] == 0x3F && 0x3F !in p[n + 1..end]
            && ParseWriteRequest(p).value == WriteRequest(reference, p[n + 1..end])
  {
    hide ParseReference;
    end := Find(p, 0x3F, ParseReference(p).value.1 + 1).value;
  }

  lemma FieldsOfWrite(p: seq<Byte>)
    returns (target: seq<Byte>, property: seq<Byte>, index: seq<Byte>, trailing: seq<Byte>)
    requires ParseWriteRequest(p).Reply?
    ensures IsWrite(p, target, property, index, trailing, ParseWriteRequest(p).value)
  {
    hide ParseReference, IsReference, ParseWriteRequest;
    var end := WriteEnds(p);
    target, property, index := FieldsOfReference(p);
    var n := ParseReference(p).value.1;
    trailing := p[end + 1..];
    Cut(p, n, n + 1);
    Cut(p, n + 1, end);
    Cut(p, end, end + 1);
    assert p[n..n + 1] == [0x3E] && p[end..end + 1] == [0x3F];
  }

  /** A write request is understood exactly if its fields are these. */
  lemma WriteExactly(p: seq<Byte>, request: WriteRequest)
    ensures ParseWriteRequest(p) == Reply(request)
            <==> exists target, property, index, trailing :: IsWrite(p, target, property, index, trailing, request)
  {
    hide ParseWriteRequest, IsWrite;
    if ParseWriteRequest(p) == Reply(request) {
      var target, property, index, trailing := FieldsOfWrite(p);
    }
    forall target, property, index, trailing | IsWrite(p, target, property, index, trailing, request)
      ensures ParseWriteRequest(p) == Reply(request)
    {
      WriteOfFields(p, target, property, index, trailing, request);
    }
  }

  // ---------------------------------------------------------------- Who-Is

  /** A limit: an unsigned number under an application tag. */
  predicate IsLimit(value: seq<Byte>, v: nat) {
    IsWhole(value) && 0x20 <= value[0] < 0x28 && FromBytes(OpenValue(value).value.octets) == v
  }

  lemma LimitDecodes(p: seq<Byte>, at: nat, n: nat, v: nat)
    requires at <= n <= |p|
    ensures DecodeApplicationUnsigned(p, at) == Value(v, n) <==> IsLimit(p[at..n], v)
  {
    hide FromBytes;
    if at < n {
      var value := p[at..n];
      var size := if value[0] % 8 != 5 then 1 else 2;
      if |value| >= size {
        assert value[size..] == p[at + size..n];
      }
    }
  }

  /** A limit stands at the offset. */
  ghost predicate LimitAt(p: seq<Byte>, at: nat) {
    exists n: nat, v: nat :: at <= n <= |p| && IsLimit(p[at..n], v)
  }

  lemma LimitAtExactly(p: seq<Byte>, at: nat)
    requires at <= |p|
    ensures LimitAt(p, at) <==> DecodeApplicationUnsigned(p, at).Value?
    ensures DecodeApplicationUnsigned(p, at).IndexError? <==> p[at..] == [0x25]
  {
    hide DecodeApplicationUnsigned, IsLimit;
    IndexErrorExactly(p, at, 0);
    if DecodeApplicationUnsigned(p, at).Value? {
      var Value(v, n) := DecodeApplicationUnsigned(p, at);
      LimitDecodes(p, at, n, v);
    }
    if LimitAt(p, at) {
      var n: nat, v: nat :| at <= n <= |p| && IsLimit(p[at..n], v);
      LimitDecodes(p, at, n, v);
    }
  }

  /** What a Who-Is asks for: both limits, a lower one only, or none, told from its octets. */
  ghost predicate AsksFor(p: seq<Byte>, lower: Option<nat>, upper: Option<nat>) {
    match (lower, upper)
    case (None, None) => !LimitAt(p, 0) && p != [0x25]
    case (Some(lo), None) =>
      exists n: nat :: n <= |p| && IsLimit(p[..n], lo) && !LimitAt(p, n) && p[n..] != [0x25]
    case (Some(lo), Some(hi)) =>
      exists n: nat, m: nat :: n <= m <= |p| && IsLimit(p[..n], lo) && IsLimit(p[n..m], hi)
    case (None, Some(_)) => false
  }

  /** The limits the server takes from a Who-Is are the ones its octets ask for. */
  lemma LimitsExactly(p: seq<Byte>, lower: Option<nat>, upper: Option<nat>)
    ensures ParseWhoIsLimits(p) == Reply((lower, upper)) <==> AsksFor(p, lower, upper)
  {
    hide DecodeApplicationUnsigned, IsLimit, LimitAt;
    LimitAtExactly(p, 0);
    var first := DecodeApplicationUnsigned(p, 0);
    if first.Value? {
      LimitDecodes(p, 0, first.next, first.value);
      LimitAtExactly(p, first.next);
      var second := DecodeApplicationUnsigned(p, first.next);
      if second.Value? {
        LimitDecodes(p, first.next, second.next, second.value);
      }
    }
    forall n: nat | lower.Some? && n <= |p| && IsLimit(p[..n], lower.value) ensures first == Value(lower.value, n) {
      LimitDecodes(p, 0, n, lower.value);
    }
    forall n: nat, m: nat | upper.Some? && n <= m <= |p| && IsLimit(p[n..m], upper.value)
      ensures DecodeApplicationUnsigned(p, n) == Value(upper.value, m)
    {
      LimitDecodes(p, n, m, upper.value);
    }
  }

  /** A Who-Is is answered, within its limits, by the I-Am: identifier, largest APDU, segmentation, vendor. */
  lemma WhoIsOctets(d: Device, t: Table, apdu: seq<Byte>, lower: Option<nat>, upper: Option<nat>)
    requires |apdu| >= 2 && apdu[0] / 0x10 == 1 && apdu[1] == 0x08 && AsksFor(apdu[2..], lower, upper)
    ensures HandleApdu(d, t, apdu)
            == Effect(if !InRange(d.instance, lower, upper) then Nothing
                      else if !(TagEncodable(d.maxApdu) && TagEncodable(d.segmentation)
                                && TagEncodable(d.vendorIdentifier)) then Raise
                      else Reply([0x10, 0x00, 0xC4] + ObjectOctets(8, d.instance) + NumberOctets(0x20, d.maxApdu)
                                 + NumberOctets(0x90, d.segmentation) + NumberOctets(0x20, d.vendorIdentifier)), t)
  {
    hide ParseWhoIsLimits, AsksFor, TagEncodable, EncodeApplicationUnsigned, EncodeApplicationEnumerated;
    hide NumberOctets, ObjectOctets, EncodeApplicationObject;
    LimitsExactly(apdu[2..], lower, upper);
    if IAmEncodable(d) {
      NumberTags(d.maxApdu);
      NumberTags(d.segmentation);
      NumberTags(d.vendorIdentifier);
      TagOctets(8, d.instance, [0, 0, 0, 0], []);
      assert [0x10, 0x00] + ([0xC4] + ObjectOctets(8, d.instance)) == [0x10, 0x00, 0xC4] + ObjectOctets(8, d.instance);
    }
  }

  // ---------------------------------------------------------------- silence

  /** The only services: Who-Is, ReadProperty and WriteProperty. Any other APDU is not answered. */
  lemma OtherApduSilent(d: Device, t: Table, apdu: seq<Byte>)
    requires || |apdu| < 2
             || (apdu[0] / 0x10 != 0 && apdu[0] / 0x10 != 1)
             || (apdu[0] / 0x10 == 1 && apdu[1] != 0x08)
             || (apdu[0] / 0x10 == 0 && (|apdu| < 4 || (apdu[3] != 0x0C && apdu[3] != 0x0F)))
    ensures HandleApdu(d, t, apdu) == Effect(Nothing, t)
  {
  }

  /** A datagram of another type, function, length or NPDU version is not answered. */
  lemma OtherDatagramSilent(d: Device, t: Table, payload: seq<Byte>)
    requires || |payload| < 6 || payload[0] != 0x81 || (payload[1] != 0x0A && payload[1] != 0x0B)
             || 0x100 * (payload[2] as int) + payload[3] as int != |payload|
             || payload[4] != 0x01
    ensures HandleDatagram(d, t, payload) == Effect(Nothing, t)
  {
    hide HandleApdu;
  }

  // ---------------------------------------------------------------- replies

  /** A datagram with a reply: the length counts all its octets. */
  function ReplyOctets(apdu: seq<Byte>): seq<Byte>
    requires |apdu| < 0x1000
  {
    var n := 6 + |apdu|;
    [0x81, 0x0A, n / 0x100, n % 0x100, 0x01, 0x00] + apdu
  }

  lemma WrappedOctets(apdu: seq<Byte>)
    requires |apdu| < 0x1000
    ensures Wrapped(Reply(apdu)) == Reply(ReplyOctets(apdu))
  {
    var n := 6 + |apdu|;
    assert [0x81, 0x0A] + [n / 0x100, n % 0x100] + ([0x01, 0x00] + apdu) == ReplyOctets(apdu);
  }

  /** The reply to an accepted WriteProperty. */
  lemma SimpleAckOctets(invokeId: Byte)
    ensures Wrapped(Reply([SIMPLE_ACK, invokeId, WRITE_PROPERTY]))
            == Reply([0x81, 0x0A, 0, 9, 1, 0, 0x20, invokeId, 0x0F])
  {
    hide Wrapped;
    WrappedOctets([SIMPLE_ACK, invokeId, WRITE_PROPERTY]);
    assert ReplyOctets([0x20, invokeId, 0x0F]) == [0x81, 0x0A, 0, 9, 1, 0, 0x20, invokeId, 0x0F];
  }

  /** The APDU that answers a ReadProperty. */
  function ReadAck(invokeId: Byte, kind: ObjectType, i: ObjectInstance, p: Byte, value: seq<Byte>): seq<Byte> {
    [0x30, invokeId, 0x0C, 0x0C] + ObjectOctets(kind, i) + [0x19, p, 0x3E] + value + [0x3F]
  }

  lemma ReadAckOctets(invokeId: Byte, kind: ObjectType, i: ObjectInstance, p: Byte, value: seq<Byte>)
    ensures TagEncodable(p)
    ensures [COMPLEX_ACK, invokeId, READ_PROPERTY] + EncodeAck(kind, i, p, value)
            == ReadAck(invokeId, kind, i, p, value)
  {
    hide EncodeAck, ObjectOctets, TagEncodable;
    AckOctets(kind, i, p, value);
    var rest := ObjectOctets(kind, i) + [0x19, p, 0x3E] + value + [0x3F];
    assert [0x0C] + ObjectOctets(kind, i) + [0x19, p, 0x3E] + value + [0x3F] == [0x0C] + rest;
    assert ReadAck(invokeId, kind, i, p, value) == [0x30, invokeId, 0x0C, 0x0C] + rest;
  }
}
