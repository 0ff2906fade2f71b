/** What the BACnet server can send: well-formed, bounded replies, and a sound discovery. */
module BacnetReplies {
  import opened Wrappers
  import opened Bytes
  import opened BacnetTags
  import opened BacnetStack
  import opened BacnetRequests

  /** The APDU of a datagram that passes the BVLC and NPDU checks. */
  function RequestApdu(payload: seq<Byte>): Option<seq<Byte>> {
    match UnwrapBvlc(payload)
    case None => None
    case Some(npdu) =>
      match ApduOffset(npdu)
      case None => None
      case Some(offset) => Some(npdu[offset..])
  }

  lemma DatagramByApdu(d: Device, t: Table, payload: seq<Byte>)
    ensures HandleDatagram(d, t, payload)
            == match RequestApdu(payload)
               case None => Effect(Nothing, t)
               case Some(apdu) => var e := HandleApdu(d, t, apdu); Effect(Wrapped(e.outcome), e.table)
  {
  }

  // ---------------------------------------------------------------- closure and bounds

  const MAX_REPLY := 275
  const MAX_I_AM := 784

  lemma PropertyLength(d: Device, t: Table, kind: ObjectType, i: ObjectInstance, p: nat)
    ensures ReadProperty(d, t, kind, i, p).Reply? ==> |ReadProperty(d, t, kind, i, p).value| <= 257
  {
    hide EncodeUnsigned;
    SmallIsOneOctet(DEVICE);
    SmallIsOneOctet(ANALOG_VALUE);
  }

  lemma AckLength(kind: ObjectType, i: ObjectInstance, p: nat, value: seq<Byte>)
    requires p < 0x100
    ensures TagEncodable(p) && |EncodeAck(kind, i, p, value)| == 9 + |value|
  {
    hide EncodeUnsigned;
    SmallIsOneOctet(p);
  }

  /** The three numbers of the I-Am fit 32 bits. */
  predicate ShortNumbers(d: Device) {
    d.maxApdu < 0x1_0000_0000 && d.segmentation < 0x1_0000_0000 && d.vendorIdentifier < 0x1_0000_0000
  }

  /** The octets of a tagged number: its base-256 digits behind a tag of one or two octets. */
  function TagSize(n: nat): nat {
    Digits(n) + if Digits(n) <= 4 then 1 else 2
  }

  function IAmNumbersSize(d: Device): nat {
    TagSize(d.maxApdu) + TagSize(d.segmentation) + TagSize(d.vendorIdentifier)
  }

  lemma IAmLength(d: Device)
    requires IAmEncodable(d)
    ensures |EncodeIAm(d)| == 7 + IAmNumbersSize(d) <= MAX_I_AM - 6
    ensures ShortNumbers(d) ==> |EncodeIAm(d)| <= 22
  {
    hide EncodeUnsigned, Pow256, Digits;
    EncodedLength(d.maxApdu);
    EncodedLength(d.segmentation);
    EncodedLength(d.vendorIdentifier);
    FourOctets();
    DigitsBound(d.maxApdu, 4);
    DigitsBound(d.segmentation, 4);
    DigitsBound(d.vendorIdentifier, 4);
  }

  lemma FourOctets()
    ensures Pow256(4) == 0x1_0000_0000
  {
  }

  lemma ApduReplyLength(d: Device, t: Table, apdu: seq<Byte>)
    ensures HandleApdu(d, t, apdu).outcome.Reply? ==>
              var reply := HandleApdu(d, t, apdu).outcome.value;
              && |reply| >= 2
              && (if reply[0] == UNCONFIRMED_REQUEST then IAmEncodable(d) && reply == EncodeIAm(d)
                  else reply[0] in {SIMPLE_ACK, COMPLEX_ACK} && |reply| <= MAX_REPLY - 6)
  {
    hide EncodeAck, ReadProperty, ParsePropertyReference, ParseWriteRequest, AcceptedWrite, ParseWhoIsLimits;
    hide EncodeApplicationUnsigned, EncodeApplicationEnumerated, EncodeApplicationObject, IAmEncodable;
    if |apdu| >= 4 && apdu[0] / 0x10 == 0 && apdu[3] == READ_PROPERTY && HandleApdu(d, t, apdu).outcome.Reply? {
      var Reference(ObjectId(kind, i), p) := ParsePropertyReference(apdu[4..]).value;
      PropertyLength(d, t, kind, i, p);
      AckLength(kind, i, p, ReadProperty(d, t, kind, i, p).value);
    }
  }

  /**
   * Every reply passes the server's own BVLC and NPDU checks and unwraps to exactly the APDU of the
   * reply. It has at most 275 octets unless it is an I-Am, whose length the three advertised numbers
   * give: at most 784, and at most 28 when they fit 32 bits.
   */
  lemma RepliesAreWellFormed(d: Device, t: Table, payload: seq<Byte>)
    ensures HandleDatagram(d, t, payload).outcome.Reply? ==>
              && RequestApdu(payload).Some? && HandleApdu(d, t, RequestApdu(payload).value).outcome.Reply?
              && var reply := HandleDatagram(d, t, payload).outcome.value;
                 var apdu := HandleApdu(d, t, RequestApdu(payload).value).outcome.value;
                 && RequestApdu(reply) == Some(apdu)
                 && reply[..2] == [BVLC_BACNET_IP, ORIGINAL_UNICAST]
                 && |reply| == 6 + |apdu|
                 && (|reply| <= MAX_REPLY || (IAmEncodable(d) && apdu == EncodeIAm(d) && |reply| <= MAX_I_AM))
                 && (IAmEncodable(d) && apdu == EncodeIAm(d) ==>
                       |reply| == 13 + IAmNumbersSize(d) && (ShortNumbers(d) ==> |reply| <= 28))
  {
    hide HandleApdu, UnwrapBvlc, ApduOffset, EncodeIAm, IAmEncodable, EncodeDatagram;
    DatagramByApdu(d, t, payload);
    if HandleDatagram(d, t, payload).outcome.Reply? {
      ApduReplyLength(d, t, RequestApdu(payload).value);
      if IAmEncodable(d) {
        IAmLength(d);
      }
      ReplyShape(HandleApdu(d, t, RequestApdu(payload).value).outcome.value);
    }
  }

  lemma ReplyShape(apdu: seq<Byte>)
    requires |apdu| < 0x1000
    ensures Wrapped(Reply(apdu)).Reply?
    ensures var reply := Wrapped(Reply(apdu)).value;
            && RequestApdu(reply) == Some(apdu)
            && reply[..2] == [BVLC_BACNET_IP, ORIGINAL_UNICAST] && reply[6..] == apdu
            && |reply| == 6 + |apdu|
  {
  }

  /** A read of a 254-character name fills the bound; its length octet is the reserved 255. */
  lemma LongestReply(d: Device, t: Table, invokeId: Byte)
    requires DeviceEncodable(d) && |d.objectName| == 254
    ensures TagEncodable(PROPERTY_OBJECT_NAME)
    ensures var request := EncodeNpdu(Direct, 0, ReadApdu(PLAIN, invokeId, DEVICE, d.instance, PROPERTY_OBJECT_NAME));
            && 4 + |request| < 0x1_0000
            && var outcome := HandleDatagram(d, t, EncodeDatagram(ORIGINAL_UNICAST, request)).outcome;
               outcome.Reply? && |outcome.value| == MAX_REPLY
    ensures EncodeApplicationCharacterString(d.objectName)[..2] == [0x75, 0xFF]
  {
    hide EncodeNpdu, HandleApdu, EncodeAck, ReadApdu, HandleDatagram, EncodeDatagram, Wrapped, TagEncodable;
    SmallIsOneOctet(PROPERTY_OBJECT_NAME);
    var apdu := ReadApdu(PLAIN, invokeId, DEVICE, d.instance, PROPERTY_OBJECT_NAME);
    ReadLength(Direct, 0, PLAIN, invokeId, DEVICE, d.instance, PROPERTY_OBJECT_NAME);
    EnvelopeDoesNotMatter(d, t, ORIGINAL_UNICAST, Direct, 0, apdu);
    ReadApduHandled(d, t, PLAIN, invokeId, DEVICE, d.instance, PROPERTY_OBJECT_NAME);
    var value := EncodeApplicationCharacterString(d.objectName);
    AckLength(DEVICE, d.instance, PROPERTY_OBJECT_NAME, value);
    ReplyShape([COMPLEX_ACK, invokeId, READ_PROPERTY] + EncodeAck(DEVICE, d.instance, PROPERTY_OBJECT_NAME, value));
  }

  // ---------------------------------------------------------------- exceptions

  predicate AllEncodable(d: Device, t: Table) {
    DeviceEncodable(d) && forall i :: i in t ==> AnalogEncodable(t[i])
  }

  /** One tagged value and nothing behind it, told from its tag and length octets. */
  predicate IsWhole(value: seq<Byte>) {
    value != []
    && if value[0] % 8 != 5 then |value| == 1 + value[0] % 8
       else |value| >= 2 && |value| == 2 + value[1] as int
  }

  /** An object identifier under context tag 0, with its length in the tag or behind it. */
  predicate IsWholeObject(value: seq<Byte>) {
    (|value| == 5 && value[0] == 0x0C) || (|value| == 6 && value[0] == 0x0D && value[1] == 4)
  }

  predicate IsWholeProperty(value: seq<Byte>) {
    IsWhole(value) && IsContextTag(value[0], 1)
  }

  /**
   * A reference that stops at the tag octet of a field with extended length: the object identifier,
   * the property identifier or the array index, behind the whole fields before it.
   */
  predicate DanglingReference(p: seq<Byte>) {
    p != []
    && var head, last := p[..|p| - 1], p[|p| - 1];
    var objectSize := if p[0] == 0x0C then 5 else 6;
    || (last == 0x0D && head == [])
    || (last == 0x1D && IsWholeObject(head))
    || (last == 0x2D && |head| >= objectSize
        && IsWholeObject(head[..objectSize]) && IsWholeProperty(head[objectSize..]))
  }

  /** Who-Is limits that stop at the tag octet of a limit with extended length. */
  predicate DanglingLimits(p: seq<Byte>) {
    p != []
    && var head := p[..|p| - 1];
    p[|p| - 1] == 0x25 && (head == [] || (IsWhole(head) && IsApplicationUnsigned(head[0])))
  }

  /** A request whose last octet announces an extended length that is not there. */
  predicate Dangling(apdu: seq<Byte>) {
    |apdu| >= 2
    && if apdu[0] / 0x10 == 1 then apdu[1] == WHO_IS && DanglingLimits(apdu[2..])
       else |apdu| >= 4 && apdu[0] / 0x10 == 0 && apdu[3] in {READ_PROPERTY, WRITE_PROPERTY}
            && DanglingReference(apdu[4..])
  }

  lemma ObjectEndsAt(p: seq<Byte>, n: nat)
    requires n <= |p|
    ensures IsWholeObject(p[..n]) <==> DecodeContextObject(p, 0, 0).Value? && DecodeContextObject(p, 0, 0).next == n
  {
    hide UnpackU32Be, UnpackObject;
  }

  lemma PropertyEndsAt(p: seq<Byte>, at: nat, n: nat)
    requires at <= n <= |p|
    ensures IsWholeProperty(p[at..n])
            <==> DecodeContextUnsigned(p, at, 1).Value? && DecodeContextUnsigned(p, at, 1).next == n
  {
    hide FromBytes;
  }

  lemma AfterObjectRaisesExactly(p: seq<Byte>, n: nat)
    requires DecodeContextObject(p, 0, 0).Value? && DecodeContextObject(p, 0, 0).next == n
    ensures ParseReference(p).Raise?
            <==> || (n + 1 == |p| && p[n] == 0x1D)
                 || (n < |p| && p[|p| - 1] == 0x2D && IsWholeProperty(p[n..|p| - 1]))
  {
    hide DecodeContextObject, DecodeContextUnsigned, IsWholeProperty;
    IndexErrorExactly(p, n, 1);
    if n < |p| {
      PropertyEndsAt(p, n, |p| - 1);
    }
    if DecodeContextUnsigned(p, n, 1).Value? {
      IndexErrorExactly(p, DecodeContextUnsigned(p, n, 1).next, 2);
    }
  }

  lemma ReferenceRaisesExactly(p: seq<Byte>)
    ensures ParseReference(p).Raise? <==> DanglingReference(p)
  {
    hide DecodeContextObject, IsWholeProperty;
    IndexErrorExactly(p, 0, 0);
    if DecodeContextObject(p, 0, 0).Value? {
      var n := DecodeContextObject(p, 0, 0).next;
      hide ParseReference;
      ObjectEndsAt(p, n);
      AfterObjectRaisesExactly(p, n);
      assert p[0] == p[..n][0];
      if n < |p| {
        var head := p[..|p| - 1];
        assert head[..n] == p[..n] && head[n..] == p[n..|p| - 1];
      }
    } else if p != [] {
      var n, end := if p[0] == 0x0C then 5 else 6, |p| - 1;
      ObjectEndsAt(p, end);
      if n <= end {
        ObjectEndsAt(p, n);
        assert p[..end][..n] == p[..n];
      }
    }
  }

  lemma LimitsRaiseExactly(p: seq<Byte>)
    ensures ParseWhoIsLimits(p).Raise? <==> DanglingLimits(p)
  {
    hide FromBytes;
  }

  /**
   * With an encodable configuration, the requests that raise are exactly those that stop at a tag
   * octet announcing an extended length. No exception changes the table.
   */
  lemma RaisesExactly(d: Device, t: Table, payload: seq<Byte>)
    requires AllEncodable(d, t)
    ensures HandleDatagram(d, t, payload).outcome.Raise?
            <==> RequestApdu(payload).Some? && Dangling(RequestApdu(payload).value)
    ensures HandleDatagram(d, t, payload).outcome.Raise? ==> HandleDatagram(d, t, payload).table == t
  {
    hide RequestApdu, HandleDatagram, EncodeIAm, HandleApdu;
    DatagramByApdu(d, t, payload);
    if RequestApdu(payload).Some? {
      var apdu := RequestApdu(payload).value;
      ApduRaisesExactly(d, t, apdu);
      if HandleApdu(d, t, apdu).outcome.Reply? {
        ApduReplyLength(d, t, apdu);
        if HandleApdu(d, t, apdu).outcome.value[0] == UNCONFIRMED_REQUEST {
          IAmLength(d);
        }
      }
    }
  }

  /** The shortest one: a ReadProperty that stops at the tag octet of its object identifier. */
  lemma RaisingDatagram(d: Device, t: Table, invokeId: Byte)
    ensures HandleDatagram(d, t, [BVLC_BACNET_IP, ORIGINAL_UNICAST, 0x00, 0x0B, NPDU_VERSION, 0x00,
                                  0x00, 0x05, invokeId, READ_PROPERTY, 0x0D])
            == Effect(Raise, t)
  {
    var npdu: seq<Byte> := [NPDU_VERSION, 0x00, 0x00, 0x05, invokeId, READ_PROPERTY, 0x0D];
    var payload := [BVLC_BACNET_IP, ORIGINAL_UNICAST, 0x00, 0x0B] + npdu;
    assert payload == [BVLC_BACNET_IP, ORIGINAL_UNICAST, 0x00, 0x0B, NPDU_VERSION, 0x00,
                       0x00, 0x05, invokeId, READ_PROPERTY, 0x0D];
    assert payload[4..] == npdu;
    assert npdu[2..][4..] == [0x0D];
  }

  lemma ReadNeverRaises(d: Device, t: Table, kind: ObjectType, i: ObjectInstance, p: nat)
    requires AllEncodable(d, t)
    ensures !ReadProperty(d, t, kind, i, p).Raise?
  {
  }

  lemma ApduRaisesExactly(d: Device, t: Table, apdu: seq<Byte>)
    requires AllEncodable(d, t)
    ensures HandleApdu(d, t, apdu).outcome.Raise? <==> Dangling(apdu)
    ensures HandleApdu(d, t, apdu).outcome.Raise? ==> HandleApdu(d, t, apdu).table == t
  {
    hide ParseReference, ParseWhoIsLimits, ReadProperty, EncodeAck, EncodeIAm, Find, AcceptedWrite, TagEncodable;
    hide DanglingReference, DanglingLimits;
    if |apdu| >= 2 {
      LimitsRaiseExactly(apdu[2..]);
    }
    if |apdu| >= 4 {
      ReferenceRaisesExactly(apdu[4..]);
    }
    if |apdu| >= 4 && ParsePropertyReference(apdu[4..]).Reply? {
      var Reference(ObjectId(kind, i), p) := ParsePropertyReference(apdu[4..]).value;
      ReadNeverRaises(d, t, kind, i, p);
    }
  }

  // ---------------------------------------------------------------- discovery

  /** Whether a device answers a Who-Is with these limits. */
  predicate InRange(instance: nat, lower: Option<nat>, upper: Option<nat>) {
    (lower.Some? ==> lower.value <= instance) && (upper.Some? ==> instance <= upper.value)
  }

  /** The tags of Who-Is limits: those the server reads, or those of section 16.10 of ASHRAE 135. */
  datatype LimitForm = ApplicationTags | ContextTags

  function EncodeLimit(form: LimitForm, tag: TagNumber, v: nat): seq<Byte>
    requires TagEncodable(v)
  {
    match form
    case ApplicationTags => EncodeApplicationUnsigned(v)
    case ContextTags => EncodeContextUnsigned(tag, v)
  }

  predicate LimitsFit(lower: Option<nat>, upper: Option<nat>) {
    (lower.Some? ==> TagEncodable(lower.value)) && (upper.Some? ==> lower.Some? && TagEncodable(upper.value))
  }

  function EncodeLimits(form: LimitForm, lower: Option<nat>, upper: Option<nat>): seq<Byte>
    requires LimitsFit(lower, upper)
  {
    (if lower.Some? then EncodeLimit(form, 0, lower.value) else [])
    + (if upper.Some? then EncodeLimit(form, 1, upper.value) else [])
  }

  lemma LimitsParse(form: LimitForm, lower: Option<nat>, upper: Option<nat>)
    requires LimitsFit(lower, upper)
    ensures ParseWhoIsLimits(EncodeLimits(form, lower, upper))
            == Reply(if form.ApplicationTags? then (lower, upper) else (None, None))
  {
    hide EncodeApplicationUnsigned, DecodeUnsignedBody, EncodeUnsigned, EncodeTagged, DecodeTagLength;
    var payload := EncodeLimits(form, lower, upper);
    if lower.Some? {
      var first := EncodeLimit(form, 0, lower.value);
      var second := if upper.Some? then EncodeLimit(form, 1, upper.value) else [];
      assert payload == [] + first + second;
      if form.ContextTags? {
        TaggedHeader([], 0, true, EncodeUnsigned(lower.value), second);
      } else {
        ApplicationUnsignedAt([], lower.value, second);
        if upper.Some? {
          assert payload == first + second + [];
          ApplicationUnsignedAt(first, upper.value, []);
        }
      }
    }
  }

  /** Whether the server answers: limits under context tags do not count. */
  predicate Answered(form: LimitForm, instance: nat, lower: Option<nat>, upper: Option<nat>) {
    form.ContextTags? || InRange(instance, lower, upper)
  }

  /**
   * Who-Is is answered, with the I-Am, exactly when the device instance lies within the limits under
   * application tags, and always when they are under context tags.
   */
  lemma WhoIsAnswered(d: Device, t: Table, lead: Byte, form: LimitForm, lower: Option<nat>, upper: Option<nat>)
    requires lead / 0x10 == 1 && IAmEncodable(d) && LimitsFit(lower, upper)
    ensures HandleApdu(d, t, [lead, WHO_IS] + EncodeLimits(form, lower, upper))
            == Effect(if Answered(form, d.instance, lower, upper) then Reply(EncodeIAm(d)) else Nothing, t)
  {
    hide EncodeLimits, EncodeIAm, IAmEncodable, ParseWhoIsLimits, HandleConfirmed, LimitsFit;
    LimitsParse(form, lower, upper);
    assert ([lead, WHO_IS] + EncodeLimits(form, lower, upper))[2..] == EncodeLimits(form, lower, upper);
  }

  /** So the range filter of the standard is honoured exactly where it would not filter anything out. */
  lemma StandardFilterExactly(d: Device, t: Table, lead: Byte, lower: nat, upper: nat)
    requires lead / 0x10 == 1 && IAmEncodable(d) && LimitsFit(Some(lower), Some(upper))
    ensures var outcome := HandleApdu(d, t, [lead, WHO_IS] + EncodeContextUnsigned(0, lower)
                                            + EncodeContextUnsigned(1, upper)).outcome;
            (outcome.Reply? <==> lower <= d.instance <= upper) <==> lower <= d.instance <= upper
  {
    hide HandleApdu, EncodeIAm, IAmEncodable, EncodeContextUnsigned, TagEncodable;
    var first, second := EncodeContextUnsigned(0, lower), EncodeContextUnsigned(1, upper);
    WhoIsAnswered(d, t, lead, ContextTags, Some(lower), Some(upper));
    assert [lead, WHO_IS] + first + second == [lead, WHO_IS] + EncodeLimits(ContextTags, Some(lower), Some(upper));
  }

  /** The test a starter applies to the answer of its Who-Is probe. */
  predicate LooksReady(response: seq<Byte>) {
    |response| >= 8 && response[..2] == [0x81, 0x0A] && response[6..8] == [0x10, 0x00]
  }

  const PROBE: seq<Byte> := [0x81, 0x0A, 0x00, 0x08, 0x01, 0x00, 0x10, 0x08]

  /** Over all replies of the server, the readiness test holds exactly for I-Am replies. */
  lemma ReadyExactlyForIAm(d: Device, t: Table, payload: seq<Byte>)
    ensures HandleDatagram(d, t, payload).outcome.Reply? ==>
              var reply := HandleDatagram(d, t, payload).outcome.value;
              LooksReady(reply) <==> IAmEncodable(d) && RequestApdu(reply) == Some(EncodeIAm(d))
  {
    hide RequestApdu, HandleDatagram, HandleApdu, IAmEncodable, Wrapped;
    hide EncodeApplicationUnsigned, EncodeApplicationEnumerated, EncodeApplicationObject;
    DatagramByApdu(d, t, payload);
    RepliesAreWellFormed(d, t, payload);
    if HandleDatagram(d, t, payload).outcome.Reply? {
      ApduReplyLength(d, t, RequestApdu(payload).value);
      var apdu := HandleApdu(d, t, RequestApdu(payload).value).outcome.value;
      ReplyShape(apdu);
      var reply := HandleDatagram(d, t, payload).outcome.value;
      assert reply[6..8] == apdu[..2] && reply[6] == apdu[0] by {
        assert apdu == reply[6..];
      }
    }
  }

  /** The starter's fixed probe is always answered by a live server, with a reply that looks ready. */
  lemma ProbeSucceeds(d: Device, t: Table)
    requires IAmEncodable(d)
    ensures var e := HandleDatagram(d, t, PROBE);
            && e.outcome.Reply? && LooksReady(e.outcome.value) && e.table == t
            && |e.outcome.value| == 6 + |EncodeIAm(d)| <= 1024
  {
    hide EncodeIAm, IAmEncodable, HandleApdu, HandleDatagram;
    var apdu: seq<Byte> := [0x10, WHO_IS];
    var npdu := EncodeNpdu(Direct, 0, apdu);
    assert npdu == [0x01, 0x00, 0x10, 0x08];
    assert EncodeDatagram(ORIGINAL_UNICAST, npdu) == PROBE;
    EnvelopeDoesNotMatter(d, t, ORIGINAL_UNICAST, Direct, 0, apdu);
    WhoIsAnswered(d, t, 0x10, ApplicationTags, None, None);
    assert apdu + EncodeLimits(ApplicationTags, None, None) == apdu;
    IAmLength(d);
    IAmStarts(d);
    ReplyShape(EncodeIAm(d));
    var reply := Wrapped(Reply(EncodeIAm(d))).value;
    assert reply[6..8] == reply[6..][..2];
  }

  lemma IAmStarts(d: Device)
    requires IAmEncodable(d)
    ensures |EncodeIAm(d)| >= 2 && EncodeIAm(d)[..2] == [0x10, 0x00]
  {
  }

  /** With three numbers of 255 octets the I-Am reaches its bound. */
  lemma LongestIAm(d: Device, t: Table)
    requires Pow256(254) <= d.maxApdu < Pow256(255)
    requires Pow256(254) <= d.segmentation < Pow256(255)
    requires Pow256(254) <= d.vendorIdentifier < Pow256(255)
    ensures HandleDatagram(d, t, PROBE).outcome.Reply? && |HandleDatagram(d, t, PROBE).outcome.value| == MAX_I_AM
  {
    hide HandleDatagram, EncodeIAm, Pow256, Digits, TagEncodable;
    LongestNumber(d.maxApdu);
    LongestNumber(d.segmentation);
    LongestNumber(d.vendorIdentifier);
    ProbeSucceeds(d, t);
    IAmLength(d);
  }

  lemma LongestNumber(n: nat)
    requires Pow256(254) <= n < Pow256(255)
    ensures TagEncodable(n) && Digits(n) == 255
  {
    hide Pow256, Digits, TagEncodable;
    EncodableExactly(n);
    DigitsBound(n, 254);
    DigitsBound(n, 255);
  }

  ghost predicate AllRepliesWithin(d: Device, t: Table, bound: nat) {
    forall payload :: HandleDatagram(d, t, payload).outcome.Reply? ==>
                        |HandleDatagram(d, t, payload).outcome.value| <= bound
  }

  /** The bound of the other replies holds for all exactly if the three tagged numbers are short. */
  lemma BoundExactly(d: Device, t: Table)
    ensures AllRepliesWithin(d, t, MAX_REPLY) <==> !IAmEncodable(d) || IAmNumbersSize(d) <= 262
  {
    hide HandleDatagram, HandleApdu, RequestApdu, EncodeIAm, IAmEncodable, IAmNumbersSize;
    if IAmEncodable(d) {
      ProbeSucceeds(d, t);
      IAmLength(d);
    }
    forall payload | HandleDatagram(d, t, payload).outcome.Reply?
      ensures |HandleDatagram(d, t, payload).outcome.value| <= MAX_REPLY
              || (IAmEncodable(d) && |HandleDatagram(d, t, payload).outcome.value| == 13 + IAmNumbersSize(d))
    {
      RepliesAreWellFormed(d, t, payload);
    }
  }

  /** Discovery through whole datagrams, in any envelope. */
  lemma DiscoveryAnswered(d: Device, t: Table, bvlcFunction: Byte, route: Route, flags: Byte, lead: Byte,
                          form: LimitForm, lower: Option<nat>, upper: Option<nat>)
    requires RouteFits(route) && PlainFlags(flags) && lead / 0x10 == 1 && IAmEncodable(d) && LimitsFit(lower, upper)
    requires bvlcFunction == ORIGINAL_UNICAST || bvlcFunction == ORIGINAL_BROADCAST
    ensures var npdu := EncodeNpdu(route, flags, [lead, WHO_IS] + EncodeLimits(form, lower, upper));
            4 + |npdu| < 0x1_0000
            && var e := HandleDatagram(d, t, EncodeDatagram(bvlcFunction, npdu));
               && e.table == t && (e.outcome.Reply? <==> Answered(form, d.instance, lower, upper))
               && (e.outcome.Reply? ==>
                     RequestApdu(e.outcome.value) == Some(EncodeIAm(d)) && LooksReady(e.outcome.value))
  {
    hide HandleApdu, HandleDatagram, EncodeIAm, IAmEncodable, EncodeDatagram, Answered, Wrapped, RequestApdu;
    hide LimitsFit, EncodeNpdu, EncodeLimits;
    var apdu := [lead, WHO_IS] + EncodeLimits(form, lower, upper);
    LimitsLength(route, flags, lead, form, lower, upper);
    EnvelopeDoesNotMatter(d, t, bvlcFunction, route, flags, apdu);
    WhoIsAnswered(d, t, lead, form, lower, upper);
    IAmLength(d);
    ReplyShape(EncodeIAm(d));
    NothingWrapped();
    if Answered(form, d.instance, lower, upper) {
      ReadyExactlyForIAm(d, t, EncodeDatagram(bvlcFunction, EncodeNpdu(route, flags, apdu)));
    }
  }

  lemma NothingWrapped()
    ensures Wrapped(Nothing) == Nothing && Wrapped(Raise) == Raise
  {
  }

  lemma LimitsLength(route: Route, flags: Byte, lead: Byte, form: LimitForm, lower: Option<nat>, upper: Option<nat>)
    requires RouteFits(route) && PlainFlags(flags) && LimitsFit(lower, upper)
    ensures |EncodeNpdu(route, flags, [lead, WHO_IS] + EncodeLimits(form, lower, upper))| < 0x1000
  {
    hide EncodeUnsigned;
  }

  /**
   * A global Who-Is that a router passes on for a station on network 5, as section 6.2 of ASHRAE 135
   * lays it out, gets no answer, although the same APDU without addresses does.
   */
  lemma RoutedWhoIsIsLost(d: Device, t: Table)
    requires IAmEncodable(d)
    ensures var npdu := EncodeStandardNpdu(0, 0xFFFF, [], 5, [7], 255, [0x10, WHO_IS]);
            HandleDatagram(d, t, EncodeDatagram(ORIGINAL_BROADCAST, npdu)) == Effect(Nothing, t)
    ensures var direct := EncodeNpdu(Direct, 0, [0x10, WHO_IS]);
            HandleDatagram(d, t, EncodeDatagram(ORIGINAL_BROADCAST, direct)).outcome.Reply?
  {
    hide EncodeIAm, IAmEncodable, HandleApdu, UnwrapBvlc, EncodeDatagram;
    var npdu := EncodeStandardNpdu(0, 0xFFFF, [], 5, [7], 255, [0x10, WHO_IS]);
    assert npdu == [0x01, 0x28, 0xFF, 0xFF, 0, 0, 5, 1, 7, 255, 0x10, 0x08];
    DatagramNpdu(ORIGINAL_BROADCAST, npdu);
    DiscoveryAnswered(d, t, ORIGINAL_BROADCAST, Direct, 0, 0x10, ApplicationTags, None, None);
    assert [0x10, WHO_IS] + EncodeLimits(ApplicationTags, None, None) == [0x10, WHO_IS];
  }

  // ---------------------------------------------------------------- what a client reads

  /** A client's view of a tagged value: its tag number and content octets. */
  datatype Content = Content(tag: nat, octets: seq<Byte>)

  function OpenValue(value: seq<Byte>): Option<Content> {
    if !IsWhole(value) then None
    else Some(Content(value[0] / 16, value[if value[0] % 8 != 5 then 1 else 2..]))
  }

  lemma OpensTagged(tag: TagNumber, octets: seq<Byte>)
    requires |octets| < 0x100
    ensures OpenValue(EncodeTagged(tag, false, octets)) == Some(Content(tag, octets))
  {
  }

  /** The same by section 20.2.1.3 of ASHRAE 135: lengths above 253 stand in 16 or 32 bits behind 254 or 255. */
  function OpenStandard(value: seq<Byte>): Option<Content> {
    match StandardLength(value)
    case Some((length, headerSize)) =>
      if |value| != headerSize + length then None else Some(Content(value[0] / 16, value[headerSize..]))
    case None => None
  }

  function StandardLength(value: seq<Byte>): (r: Option<(nat, nat)>)
    ensures r.Some? ==> r.value.1 <= |value|
  {
    if value == [] || value[0] % 8 > 5 then None
    else if value[0] % 8 < 5 then Some((value[0] % 8, 1))
    else if |value| < 2 then None
    else if value[1] <= 253 then Some((value[1], 2))
    else if value[1] == 254 && |value| >= 4 then Some((UnpackU16Be(value, 2), 4))
    else if value[1] == 255 && |value| >= 6 then Some((UnpackU32Be(value, 2), 6))
    else None
  }

  /** A client that keeps to the standard opens a value of the server exactly up to 253 octets. */
  lemma OpensStandardExactly(tag: TagNumber, octets: seq<Byte>)
    requires |octets| < 0x100
    ensures OpenStandard(EncodeTagged(tag, false, octets)) == Some(Content(tag, octets)) <==> |octets| <= 253
  {
    hide UnpackU16Be, UnpackU32Be;
  }

  /** A string property is readable for such a client exactly up to 252 characters. */
  lemma StringReadableExactly(s: seq<Byte>)
    requires StringFits(s)
    ensures OpenStandard(EncodeApplicationCharacterString(s)) == Some(Content(CHARACTER_STRING, [0] + s))
            <==> |s| <= 252
  {
    hide OpenStandard;
    OpensStandardExactly(CHARACTER_STRING, [0] + s);
  }

  predicate TellsString(value: seq<Byte>, s: seq<Byte>) {
    OpenValue(value) == Some(Content(7, [0] + s))
  }

  predicate TellsNumber(value: seq<Byte>, tag: nat, n: nat) {
    OpenValue(value).Some? && OpenValue(value).value.tag == tag && FromBytes(OpenValue(value).value.octets) == n
  }

  predicate TellsObject(value: seq<Byte>, id: ObjectId) {
    OpenValue(value) == Some(Content(12, ObjectOctets(id.kind, id.instance)))
  }

  lemma StringTold(s: seq<Byte>)
    requires StringFits(s)
    ensures TellsString(EncodeApplicationCharacterString(s), s)
  {
  }

  lemma NumberTold(n: nat)
    requires TagEncodable(n)
    ensures TellsNumber(EncodeApplicationUnsigned(n), UNSIGNED, n)
    ensures TellsNumber(EncodeApplicationEnumerated(n), ENUMERATED, n)
  {
    hide OpenValue, EncodeTagged, EncodeUnsigned;
    OpensTagged(UNSIGNED, EncodeUnsigned(n));
    OpensTagged(ENUMERATED, EncodeUnsigned(n));
    UnsignedRoundTrip(n);
  }

  lemma ObjectHasFourOctets(kind: ObjectType, i: ObjectInstance)
    ensures |ObjectOctets(kind, i)| == 4
  {
  }

  lemma ObjectTold(kind: ObjectType, i: ObjectInstance)
    ensures TellsObject(EncodeApplicationObject(kind, i), ObjectId(kind, i))
    ensures |EncodeApplicationObject(kind, i)| == 5
  {
    hide ObjectOctets, PackU32Be;
    PackedObjectOctets(kind, i);
    ObjectHasFourOctets(kind, i);
    OpensTagged(OBJECT_IDENTIFIER, ObjectOctets(kind, i));
  }

  /** The I-Am carries the device's identifier, its largest APDU, its segmentation and its vendor, in this order. */
  lemma IAmTells(d: Device)
    requires IAmEncodable(d)
    ensures var apdu, limit := EncodeIAm(d), EncodeApplicationUnsigned(d.maxApdu);
            var vendorAt := |apdu| - |EncodeApplicationUnsigned(d.vendorIdentifier)|;
            && 7 + |limit| <= vendorAt
            && TellsObject(apdu[2..7], ObjectId(DEVICE, d.instance))
            && DecodeApplicationUnsigned(apdu, 7) == Value(d.maxApdu, 7 + |limit|)
            && TellsNumber(apdu[7 + |limit|..vendorAt], ENUMERATED, d.segmentation)
            && DecodeApplicationUnsigned(apdu, vendorAt) == Value(d.vendorIdentifier, |apdu|)
  {
    hide EncodeApplicationUnsigned, EncodeApplicationEnumerated, EncodeApplicationObject, DecodeApplicationUnsigned;
    hide TagEncodable, TellsObject, TellsNumber;
    var apdu, id := EncodeIAm(d), EncodeApplicationObject(DEVICE, d.instance);
    var limit, vendor := EncodeApplicationUnsigned(d.maxApdu), EncodeApplicationUnsigned(d.vendorIdentifier);
    var segmentation := EncodeApplicationEnumerated(d.segmentation);
    ObjectTold(DEVICE, d.instance);
    var head := [UNCONFIRMED_REQUEST, I_AM] + id;
    assert apdu == head + limit + (segmentation + vendor);
    ApplicationUnsignedAt(head, d.maxApdu, segmentation + vendor);
    assert apdu == (head + limit + segmentation) + vendor + [];
    ApplicationUnsignedAt(head + limit + segmentation, d.vendorIdentifier, []);
    NumberTold(d.segmentation);
    assert apdu[2..7] == id;
    assert apdu[7 + |limit|..|apdu| - |vendor|] == segmentation;
  }

  /** A client that decodes the properties of an analog value finds each field under its property. */
  lemma ClientReadsAnalog(a: Analog)
    requires AnalogEncodable(a)
    ensures TellsObject(EncodeAnalogProperty(a, PROPERTY_OBJECT_IDENTIFIER).Or([]), ObjectId(ANALOG_VALUE, a.instance))
    ensures TellsString(EncodeAnalogProperty(a, PROPERTY_OBJECT_NAME).Or([]), a.objectName)
    ensures TellsNumber(EncodeAnalogProperty(a, PROPERTY_OBJECT_TYPE).Or([]), ENUMERATED, ANALOG_VALUE)
    ensures TellsString(EncodeAnalogProperty(a, PROPERTY_DESCRIPTION).Or([]), a.description)
    ensures DecodeApplicationReal(EncodeAnalogProperty(a, PROPERTY_PRESENT_VALUE).Or([])) == Some(a.presentValue)
    ensures TellsNumber(EncodeAnalogProperty(a, PROPERTY_UNITS).Or([]), ENUMERATED, a.units)
  {
    hide TellsString, TellsNumber, TellsObject, EncodeTagged, EncodeUnsigned;
    ObjectTold(ANALOG_VALUE, a.instance);
    StringTold(a.objectName);
    SmallIsOneOctet(ANALOG_VALUE);
    NumberTold(ANALOG_VALUE);
    StringTold(a.description);
    ApplicationRealExactly(EncodeApplicationReal(a.presentValue), a.presentValue);
    NumberTold(a.units);
  }

  lemma ClientReadsDevice(d: Device)
    requires DeviceEncodable(d)
    ensures TellsObject(EncodeDeviceProperty(d, PROPERTY_OBJECT_IDENTIFIER).Or([]), ObjectId(DEVICE, d.instance))
    ensures TellsObject(EncodeDeviceProperty(d, PROPERTY_OBJECT_LIST).Or([]), ObjectId(DEVICE, d.instance))
    ensures TellsNumber(EncodeDeviceProperty(d, PROPERTY_OBJECT_TYPE).Or([]), ENUMERATED, DEVICE)
    ensures TellsString(EncodeDeviceProperty(d, PROPERTY_OBJECT_NAME).Or([]), d.objectName)
    ensures TellsString(EncodeDeviceProperty(d, PROPERTY_DESCRIPTION).Or([]), d.description)
    ensures TellsString(EncodeDeviceProperty(d, PROPERTY_VENDOR_NAME).Or([]), d.vendorName)
    ensures TellsString(EncodeDeviceProperty(d, PROPERTY_MODEL_NAME).Or([]), d.modelName)
    ensures TellsNumber(EncodeDeviceProperty(d, PROPERTY_VENDOR_IDENTIFIER).Or([]), UNSIGNED, d.vendorIdentifier)
    ensures TellsNumber(EncodeDeviceProperty(d, PROPERTY_MAX_APDU).Or([]), UNSIGNED, d.maxApdu)
    ensures TellsNumber(EncodeDeviceProperty(d, PROPERTY_SEGMENTATION).Or([]), ENUMERATED, d.segmentation)
    ensures TellsNumber(EncodeDeviceProperty(d, PROPERTY_PROTOCOL_VERSION).Or([]), UNSIGNED, d.protocolVersion)
    ensures TellsNumber(EncodeDeviceProperty(d, PROPERTY_PROTOCOL_REVISION).Or([]), UNSIGNED, d.protocolRevision)
  {
    hide TellsString, TellsNumber, TellsObject, EncodeTagged, EncodeUnsigned;
    ObjectTold(DEVICE, d.instance);
    SmallIsOneOctet(DEVICE);
    NumberTold(DEVICE);
    StringTold(d.objectName);
    StringTold(d.description);
    StringTold(d.vendorName);
    StringTold(d.modelName);
    NumberTold(d.vendorIdentifier);
    NumberTold(d.maxApdu);
    NumberTold(d.segmentation);
    NumberTold(d.protocolVersion);
    NumberTold(d.protocolRevision);
  }
}
