/**
 * The tagged values of BACnet: shortest big-endian unsigned integers, object identifiers packed as
 * 10 bits of type over 22 bits of instance, and tag headers with inline or extended length.
 */
module BacnetTags {
  import opened Wrappers
  import opened Bytes

  // ---------------------------------------------------------------- unsigned integers

  function BitLength(v: nat): nat {
    if v == 0 then 0 else 1 + BitLength(v / 2)
  }

  /** The low `n` octets of a value, most significant first. */
  function ToBytes(v: nat, n: nat): (b: seq<Byte>)
    ensures |b| == n
  {
    if n == 0 then [] else ToBytes(v / 0x100, n - 1) + [v % 0x100]
  }

  function FromBytes(b: seq<Byte>): nat {
    if b == [] then 0 else 0x100 * FromBytes(b[..|b| - 1]) + b[|b| - 1] as int
  }

  function AtLeastOne(n: nat): nat {
    if n < 1 then 1 else n
  }

  function EncodeUnsigned(v: nat): seq<Byte> {
    if v == 0 then [0]
    else ToBytes(v, AtLeastOne((BitLength(v) + 7) / 8))
  }

  /** The number of base-256 digits. */
  function Digits(v: nat): nat {
    if v < 0x100 then 1 else 1 + Digits(v / 0x100)
  }

  function Pow256(n: nat): nat {
    if n == 0 then 1 else 0x100 * Pow256(n - 1)
  }

  function Pow2(n: nat): nat {
    if n == 0 then 1 else 2 * Pow2(n - 1)
  }

  lemma {:induction false} BitLengthBelow(v: nat, n: nat)
    requires v < Pow2(n)
    ensures BitLength(v) <= n
  {
    if v > 0 {
      BitLengthBelow(v / 2, n - 1);
    }
  }

  lemma BitLengthOfByte(v: nat)
    requires 0 < v < 0x100
    ensures 1 <= BitLength(v) <= 8
  {
    assert Pow2(2) == 4;
    assert Pow2(4) == 0x10;
    assert Pow2(6) == 0x40;
    assert Pow2(8) == 0x100;
    BitLengthBelow(v, 8);
  }

  lemma BitLengthOfMore(v: nat)
    requires v >= 0x100
    ensures BitLength(v) == 8 + BitLength(v / 0x100)
  {
    var v1 := v / 2;
    var v2 := v1 / 2;
    var v3 := v2 / 2;
    var v4 := v3 / 2;
    var v5 := v4 / 2;
    var v6 := v5 / 2;
    var v7 := v6 / 2;
    assert v7 / 2 == v / 0x100;
    assert BitLength(v4) == 4 + BitLength(v / 0x100) by {
      assert BitLength(v6) == 2 + BitLength(v / 0x100);
    }
    assert BitLength(v2) == 2 + BitLength(v4);
  }

  /** The length taken from the bit length is the number of base-256 digits. */
  lemma {:induction false} LengthIsDigits(v: nat)
    requires v > 0
    ensures (BitLength(v) + 7) / 8 == Digits(v)
  {
    if v < 0x100 {
      BitLengthOfByte(v);
    } else {
      BitLengthOfMore(v);
      LengthIsDigits(v / 0x100);
    }
  }

  lemma {:induction false} DigitsBound(v: nat, n: nat)
    requires n > 0
    ensures Digits(v) <= n <==> v < Pow256(n)
    decreases n
  {
    if n == 1 {
      assert Pow256(1) == 0x100 * Pow256(0) == 0x100;
    } else {
      DigitsBound(v / 0x100, n - 1);
      assert Pow256(n - 1) >= 1 by {
        PowPositive(n - 1);
      }
    }
  }

  lemma {:induction false} PowPositive(n: nat)
    ensures Pow256(n) >= 1
  {
    if n > 0 {
      PowPositive(n - 1);
    }
  }

  lemma {:induction false} FromOfTo(v: nat, n: nat)
    requires n > 0 ==> Digits(v) <= n
    requires n == 0 ==> v == 0
    ensures FromBytes(ToBytes(v, n)) == v
    decreases n
  {
    if n > 0 {
      var high := ToBytes(v / 0x100, n - 1);
      FromOfTo(v / 0x100, n - 1);
      assert (high + [v % 0x100])[..n - 1] == high;
    }
  }

  lemma {:induction false} FromBound(b: seq<Byte>)
    ensures FromBytes(b) < Pow256(|b|)
    decreases |b|
  {
    if b != [] {
      FromBound(b[..|b| - 1]);
    }
  }

  lemma EncodedLength(v: nat)
    ensures |EncodeUnsigned(v)| == Digits(v)
  {
    if v > 0 {
      LengthIsDigits(v);
    }
  }

  lemma UnsignedRoundTrip(v: nat)
    ensures FromBytes(EncodeUnsigned(v)) == v
  {
    if v == 0 {
      assert [0 as Byte][..0] == [];
    } else {
      LengthIsDigits(v);
      FromOfTo(v, Digits(v));
    }
  }

  /** The encoding is the shortest non-empty big-endian form of its value. */
  lemma EncodedIsShortest(b: seq<Byte>)
    requires b != []
    ensures |EncodeUnsigned(FromBytes(b))| <= |b|
  {
    FromBound(b);
    DigitsBound(FromBytes(b), |b|);
    EncodedLength(FromBytes(b));
  }

  /** A value fits a tag, whose length is one octet, exactly below 256^255. */
  predicate TagEncodable(v: nat) {
    |EncodeUnsigned(v)| < 0x100
  }

  lemma EncodableExactly(v: nat)
    ensures TagEncodable(v) <==> v < Pow256(255)
  {
    EncodedLength(v);
    DigitsBound(v, 255);
  }

  lemma SmallIsOneOctet(v: nat)
    requires v < 0x100
    ensures EncodeUnsigned(v) == [v] && TagEncodable(v)
  {
    if v > 0 {
      LengthIsDigits(v);
      assert ToBytes(v, 1) == ToBytes(v / 0x100, 0) + [v % 0x100];
    }
  }

  // ---------------------------------------------------------------- encoders

  const UNSIGNED := 2
  const REAL := 4
  const CHARACTER_STRING := 7
  const BIT_STRING := 8
  const ENUMERATED := 9
  const OBJECT_IDENTIFIER := 12

  type TagNumber = n: nat | n < 16
  /** A REAL as its four octets. */
  type Real = r: seq<Byte> | |r| == 4 witness [0, 0, 0, 0]
  type ObjectType = n: nat | n < 0x400
  type ObjectInstance = n: nat | n < 0x40_0000

  function EncodeTagHeader(tag: TagNumber, isContext: bool, length: nat): seq<Byte>
    requires length < 0x100
  {
    var lead := 16 * tag + if isContext then 8 else 0;
    if length <= 4 then [lead + length] else [lead + 5, length]
  }

  function OpeningTag(tag: TagNumber): Byte { 16 * tag + 14 }

  function ClosingTag(tag: TagNumber): Byte { 16 * tag + 15 }

  function EncodeTagged(tag: TagNumber, isContext: bool, value: seq<Byte>): seq<Byte>
    requires |value| < 0x100
  {
    EncodeTagHeader(tag, isContext, |value|) + value
  }

  function EncodeApplicationUnsigned(v: nat): seq<Byte>
    requires TagEncodable(v)
  {
    EncodeTagged(UNSIGNED, false, EncodeUnsigned(v))
  }

  function EncodeApplicationEnumerated(v: nat): seq<Byte>
    requires TagEncodable(v)
  {
    EncodeTagged(ENUMERATED, false, EncodeUnsigned(v))
  }

  function EncodeApplicationReal(r: Real): seq<Byte> {
    EncodeTagged(REAL, false, r)
  }

  function EncodeApplicationCharacterString(s: seq<Byte>): seq<Byte>
    requires |s| < 0xFF
  {
    EncodeTagged(CHARACTER_STRING, false, [0] + s)
  }

  function EncodeApplicationBitString(bits: seq<Byte>): seq<Byte>
    requires |bits| < 0xFF
  {
    EncodeTagged(BIT_STRING, false, [0] + bits)
  }

  function PackObject(t: ObjectType, i: ObjectInstance): U32 {
    0x40_0000 * t + i
  }

  function EncodeApplicationObject(t: ObjectType, i: ObjectInstance): seq<Byte> {
    EncodeTagged(OBJECT_IDENTIFIER, false, PackU32Be(PackObject(t, i)))
  }

  function EncodeContextUnsigned(tag: TagNumber, v: nat): seq<Byte>
    requires TagEncodable(v)
  {
    EncodeTagged(tag, true, EncodeUnsigned(v))
  }

  function EncodeContextObject(tag: TagNumber, t: ObjectType, i: ObjectInstance): seq<Byte> {
    EncodeTagged(tag, true, PackU32Be(PackObject(t, i)))
  }

  // ---------------------------------------------------------------- decoders

  /**
   * What a decoder does at an offset: it declines, leaving the offset alone, it returns a value and
   * the offset behind it, or it runs off the end while reading an extended length.
   */
  datatype Decoded<+T> = Absent | Value(value: T, next: nat) | IndexError

  predicate IsContextTag(b: Byte, tag: TagNumber) {
    b / 16 == tag && b / 8 % 2 == 1
  }

  predicate IsApplicationUnsigned(b: Byte) {
    b / 16 == UNSIGNED && b / 8 % 2 != 1
  }

  /** The length and header size of the tag at an offset; `None` is the unchecked read past the end. */
  function DecodeTagLength(payload: seq<Byte>, offset: nat): Option<(nat, nat)>
    requires offset < |payload|
  {
    var length := payload[offset] % 8;
    if length != 5 then Some((length, 1))
    else if offset + 1 < |payload| then Some((payload[offset + 1], 2))
    else None
  }

  /** The unsigned value behind a tag that has been recognised. */
  function DecodeUnsignedBody(payload: seq<Byte>, offset: nat): (d: Decoded<nat>)
    requires offset < |payload|
    ensures d.Value? ==> offset < d.next <= |payload|
  {
    match DecodeTagLength(payload, offset)
    case None => IndexError
    case Some((length, headerSize)) =>
      var start := offset + headerSize;
      if |payload| < start + length then Absent
      else Value(FromBytes(payload[start..start + length]), start + length)
  }

  function DecodeApplicationUnsigned(payload: seq<Byte>, offset: nat): (d: Decoded<nat>)
    ensures d.Value? ==> offset < d.next <= |payload|
  {
    if |payload| <= offset || !IsApplicationUnsigned(payload[offset]) then Absent
    else DecodeUnsignedBody(payload, offset)
  }

  function DecodeContextUnsigned(payload: seq<Byte>, offset: nat, tag: TagNumber): (d: Decoded<nat>)
    ensures d.Value? ==> offset < d.next <= |payload|
  {
    if |payload| <= offset || !IsContextTag(payload[offset], tag) then Absent
    else DecodeUnsignedBody(payload, offset)
  }

  datatype ObjectId = ObjectId(kind: ObjectType, instance: ObjectInstance)

  function UnpackObject(raw: U32): ObjectId {
    ObjectId(raw / 0x40_0000, raw % 0x40_0000)
  }

  function DecodeContextObject(payload: seq<Byte>, offset: nat, tag: TagNumber): (d: Decoded<ObjectId>)
    ensures d.Value? ==> offset < d.next <= |payload|
  {
    if |payload| <= offset || !IsContextTag(payload[offset], tag) then Absent
    else
      match DecodeTagLength(payload, offset)
      case None => IndexError
      case Some((length, headerSize)) =>
        var start := offset + headerSize;
        if length != 4 || |payload| < start + 4 then Absent
        else Value(UnpackObject(UnpackU32Be(payload, start)), start + 4)
  }

  function DecodeApplicationReal(payload: seq<Byte>): Option<Real> {
    if |payload| != 5 || payload[0] != 0x44 then None else Some(payload[1..5])
  }

  // ---------------------------------------------------------------- round trips at any offset

  /** The three fields of a tag octet do not overlap. */
  lemma TagOctet(tag: TagNumber, isContext: bool, low: nat)
    requires low < 8
    ensures var lead := 16 * tag + (if isContext then 8 else 0) + low;
            lead < 0x100 && lead / 16 == tag && (lead / 8 % 2 == 1) == isContext && lead % 8 == low
  {
  }

  /** The header of an encoded value, read back from the middle of a payload. */
  lemma TaggedHeader(prefix: seq<Byte>, tag: TagNumber, isContext: bool, value: seq<Byte>, suffix: seq<Byte>)
    requires |value| < 0x100
    ensures var payload, at := prefix + EncodeTagged(tag, isContext, value) + suffix, |prefix|;
            var size := if |value| <= 4 then 1 else 2;
            && at < |payload| && payload[at] / 16 == tag && (payload[at] / 8 % 2 == 1) == isContext
            && DecodeTagLength(payload, at) == Some((|value|, size))
            && |EncodeTagged(tag, isContext, value)| == size + |value|
            && payload[at + size..at + size + |value|] == value
  {
    var header := EncodeTagHeader(tag, isContext, |value|);
    var payload := prefix + EncodeTagged(tag, isContext, value) + suffix;
    var low := if |value| <= 4 then |value| else 5;
    TagOctet(tag, isContext, low);
    assert header[0] == 16 * tag + (if isContext then 8 else 0) + low;
    hide EncodeTagHeader;
    assert payload == prefix + header + value + suffix;
    assert payload[|prefix|..|prefix + header|] == header;
    assert payload[|prefix|] == header[0];
  }

  lemma ApplicationUnsignedAt(prefix: seq<Byte>, v: nat, suffix: seq<Byte>)
    requires TagEncodable(v)
    ensures DecodeApplicationUnsigned(prefix + EncodeApplicationUnsigned(v) + suffix, |prefix|)
            == Value(v, |prefix| + |EncodeApplicationUnsigned(v)|)
  {
    hide DecodeTagLength, EncodeTagged, EncodeUnsigned, FromBytes;
    TaggedHeader(prefix, UNSIGNED, false, EncodeUnsigned(v), suffix);
    UnsignedRoundTrip(v);
  }

  lemma ContextUnsignedAt(prefix: seq<Byte>, tag: TagNumber, v: nat, suffix: seq<Byte>)
    requires TagEncodable(v)
    ensures DecodeContextUnsigned(prefix + EncodeContextUnsigned(tag, v) + suffix, |prefix|, tag)
            == Value(v, |prefix| + |EncodeContextUnsigned(tag, v)|)
  {
    hide DecodeTagLength, EncodeTagged, EncodeUnsigned, FromBytes;
    TaggedHeader(prefix, tag, true, EncodeUnsigned(v), suffix);
    UnsignedRoundTrip(v);
  }

  lemma PackObjectRoundTrip(t: ObjectType, i: ObjectInstance)
    ensures UnpackObject(PackObject(t, i)) == ObjectId(t, i)
  {
  }

  lemma ContextObjectAt(prefix: seq<Byte>, tag: TagNumber, t: ObjectType, i: ObjectInstance, suffix: seq<Byte>)
    ensures |EncodeContextObject(tag, t, i)| == 5
    ensures DecodeContextObject(prefix + EncodeContextObject(tag, t, i) + suffix, |prefix|, tag)
            == Value(ObjectId(t, i), |prefix| + 5)
  {
    var raw := PackU32Be(PackObject(t, i));
    TaggedHeader(prefix, tag, true, raw, suffix);
    PackObjectRoundTrip(t, i);
    var header := EncodeTagHeader(tag, true, 4);
    assert prefix + EncodeContextObject(tag, t, i) + suffix == (prefix + header) + raw + suffix;
    UnpackU32BeAt(prefix + header, PackObject(t, i), suffix);
  }

  lemma ApplicationRealExactly(payload: seq<Byte>, r: Real)
    ensures DecodeApplicationReal(payload) == Some(r) <==> payload == EncodeApplicationReal(r)
  {
    assert EncodeApplicationReal(r) == [0x44] + r;
    assert ([0x44] + r)[1..5] == r;
    if |payload| == 5 {
      assert payload == [payload[0]] + payload[1..5];
    }
  }

  /** Every decoder fails with an IndexError exactly on a dangling extended-length tag of its kind. */
  lemma IndexErrorExactly(payload: seq<Byte>, offset: nat, tag: TagNumber)
    ensures DecodeContextUnsigned(payload, offset, tag).IndexError?
            <==> offset + 1 == |payload| && IsContextTag(payload[offset], tag) && payload[offset] % 8 == 5
    ensures DecodeContextObject(payload, offset, tag).IndexError?
            <==> offset + 1 == |payload| && IsContextTag(payload[offset], tag) && payload[offset] % 8 == 5
    ensures DecodeApplicationUnsigned(payload, offset).IndexError?
            <==> offset + 1 == |payload| && IsApplicationUnsigned(payload[offset]) && payload[offset] % 8 == 5
  {
  }

  // ---------------------------------------------------------------- the standard's lengths

  /** The header of section 20.2.1.3.1 of ASHRAE 135, where 254 announces a 16-bit length. */
  function StandardTagHeader(tag: TagNumber, isContext: bool, length: U16): seq<Byte> {
    var lead := 16 * tag + if isContext then 8 else 0;
    if length <= 4 then [lead + length]
    else if length <= 253 then [lead + 5, length]
    else [lead + 5, 254] + PackU16Be(length)
  }

  /** The server follows the standard exactly up to 253 octets. */
  lemma StandardHeaderExactly(tag: TagNumber, isContext: bool, length: nat)
    requires length < 0x100
    ensures EncodeTagHeader(tag, isContext, length) == StandardTagHeader(tag, isContext, length) <==> length <= 253
  {
  }

  // ---------------------------------------------------------------- octets

  /** An object identifier: 10 bits of type over 22 bits of instance. */
  function ObjectOctets(t: ObjectType, i: ObjectInstance): seq<Byte> {
    [t / 4, t % 4 * 0x40 + i / 0x1_0000, i / 0x100 % 0x100, i % 0x100]
  }

  lemma PackedObjectOctets(t: ObjectType, i: ObjectInstance)
    ensures PackU32Be(PackObject(t, i)) == ObjectOctets(t, i)
  {
    hide PackU32Be;
    OctetsU32Be(PackObject(t, i));
    var b0, b1, b2, b3 := i % 0x100, i / 0x100 % 0x100, t % 4 * 0x40 + i / 0x1_0000, t / 4;
    assert i == b0 + 0x100 * b1 + 0x1_0000 * (i / 0x1_0000);
    SumOctets(PackObject(t, i), b0, b1, b2, b3);
  }

  /** An encoded number: the tag, then the shortest octets. */
  function NumberOctets(lead: Byte, v: nat): seq<Byte>
    requires lead % 8 == 0 && TagEncodable(v)
  {
    var octets := EncodeUnsigned(v);
    if |octets| <= 4 then [lead + |octets|] + octets else [lead + 5, |octets|] + octets
  }

  /** Every kind of tagged value, with its tag as it stands on the wire. */
  lemma TagOctets(t: ObjectType, i: ObjectInstance, r: Real, s: seq<Byte>)
    requires |s| < 0xFF
    ensures EncodeApplicationObject(t, i) == [0xC4] + ObjectOctets(t, i)
    ensures EncodeContextObject(0, t, i) == [0x0C] + ObjectOctets(t, i)
    ensures EncodeApplicationReal(r) == [0x44] + r
    ensures EncodeApplicationCharacterString(s) == (if |s| <= 3 then [0x71 + |s|] else [0x75, 1 + |s|]) + [0] + s
    ensures EncodeApplicationBitString([0]) == [0x82, 0, 0]
  {
    hide PackU32Be;
    OctetsU32Be(PackObject(t, i));
    PackedObjectOctets(t, i);
  }

  lemma NumberTags(v: nat)
    requires TagEncodable(v)
    ensures EncodeApplicationUnsigned(v) == NumberOctets(0x20, v)
    ensures EncodeApplicationEnumerated(v) == NumberOctets(0x90, v)
    ensures EncodeContextUnsigned(0, v) == NumberOctets(0x08, v)
    ensures EncodeContextUnsigned(1, v) == NumberOctets(0x18, v)
    ensures EncodeContextUnsigned(2, v) == NumberOctets(0x28, v)
  {
    hide EncodeUnsigned;
  }

  lemma Regroup(x: nat, p: nat)
    ensures 0x100 * (x * p) == x * (0x100 * p)
  {
  }

  lemma FromBytesSnoc(a: seq<Byte>, x: Byte)
    ensures FromBytes(a + [x]) == 0x100 * FromBytes(a) + x as int
  {
    assert (a + [x])[..|a|] == a;
  }

  /** Octets are read with the highest first. */
  lemma {:induction false} FromBytesConcat(a: seq<Byte>, b: seq<Byte>)
    ensures FromBytes(a + b) == FromBytes(a) * Pow256(|b|) + FromBytes(b)
    ensures |b| == 1 ==> FromBytes(b) == b[0] as int
    decreases |b|
  {
    hide FromBytes;
    if b == [] {
      assert a + b == a;
      NoBytes();
    } else {
      var n, x := |b| - 1, b[|b| - 1];
      assert a + b == (a + b[..n]) + [x] && b == b[..n] + [x];
      FromBytesConcat(a, b[..n]);
      FromBytesSnoc(a + b[..n], x);
      FromBytesSnoc(b[..n], x);
      Regroup(FromBytes(a), Pow256(n));
      NoBytes();
    }
  }

  lemma NoBytes()
    ensures FromBytes([]) == 0
  {
  }
}
