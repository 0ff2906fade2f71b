/**
 * CIP request paths. The parser accepts class, instance and attribute segments whose value is
 * 8, 16 or 32 bits wide, with no pad byte behind the segment code, and skips zero bytes that
 * stand between segments.
 */
module EnipPath {
  import opened Wrappers
  import opened Bytes

  datatype Kind = Class | Instance | Attribute
  datatype Width = W8 | W16 | W32
  datatype Segment = Pad | Logical(kind: Kind, width: Width, value: U32)

  /** Class and instance are always present in an accepted path; the attribute may be missing. */
  datatype Target = Target(classCode: U32, instance: U32, attribute: Option<U32>)

  // ---------------------------------------------------------------- grammar

  predicate SegmentFits(s: Segment) {
    match s
    case Pad => true
    case Logical(_, W8, v) => v < 0x100
    case Logical(_, W16, v) => v < 0x1_0000
    case Logical(_, W32, _) => true
  }

  predicate PathFits(segments: seq<Segment>) {
    forall i :: 0 <= i < |segments| ==> SegmentFits(segments[i])
  }

  function SegmentCode(kind: Kind, width: Width): Byte {
    (match kind case Class => 0x20 case Instance => 0x24 case Attribute => 0x30)
    + (match width case W8 => 0 case W16 => 1 case W32 => 2)
  }

  function EncodeSegment(s: Segment): seq<Byte>
    requires SegmentFits(s)
  {
    match s
    case Pad => [0]
    case Logical(k, w, v) =>
      [SegmentCode(k, w)]
      + match w case W8 => [v] case W16 => PackU16Le(v) case W32 => PackU32Le(v)
  }

  function EncodePath(segments: seq<Segment>): seq<Byte>
    requires PathFits(segments)
  {
    if segments == [] then [] else EncodeSegment(segments[0]) + EncodePath(segments[1..])
  }

  /** The value of the last segment of a kind. */
  function LastOf(segments: seq<Segment>, kind: Kind): Option<U32> {
    if segments == [] then None
    else
      var last := segments[|segments| - 1];
      if last.Logical? && last.kind == kind then Some(last.value)
      else LastOf(segments[..|segments| - 1], kind)
  }

  /** What a list of segments denotes; `None` stands for the parser's ValueError. */
  function Meaning(segments: seq<Segment>): Option<Target> {
    var c, i := LastOf(segments, Class), LastOf(segments, Instance);
    if c.None? || i.None? then None
    else Some(Target(c.value, i.value, LastOf(segments, Attribute)))
  }

  // ---------------------------------------------------------------- parser

  /** The segment type the code table gives to a segment byte. */
  function KindOf(code: Byte): Option<Kind> {
    if code in {0x20, 0x21, 0x22} then Some(Class)
    else if code in {0x24, 0x25, 0x26} then Some(Instance)
    else if code in {0x30, 0x31, 0x32} then Some(Attribute)
    else None
  }

  /** Reads a segment's value and returns it with the offset behind it; `None` is a ValueError. */
  function ReadPathValue(path: seq<Byte>, offset: nat, code: Byte): (r: Option<(U32, nat)>)
    ensures r.Some? ==> offset < r.value.1 <= |path|
  {
    if code in {0x20, 0x24, 0x30} then
      if offset >= |path| then None else Some((path[offset], offset + 1))
    else if code in {0x21, 0x25, 0x31} then
      if offset + 2 > |path| then None else Some((UnpackU16Le(path, offset), offset + 2))
    else if code in {0x22, 0x26, 0x32} then
      if offset + 4 > |path| then None else Some((UnpackU32Le(path, offset), offset + 4))
    else None
  }

  /** The three variables of the parsing loop. */
  datatype Seen = Seen(classCode: Option<U32>, instance: Option<U32>, attribute: Option<U32>)

  function Note(seen: Seen, kind: Kind, value: U32): Seen {
    match kind
    case Class => seen.(classCode := Some(value))
    case Instance => seen.(instance := Some(value))
    case Attribute => seen.(attribute := Some(value))
  }

  /** The rest of the parse from an offset. */
  function ParseFrom(path: seq<Byte>, offset: nat, seen: Seen): Option<Target>
    requires offset <= |path|
    decreases |path| - offset
  {
    if offset == |path| then
      if seen.classCode.None? || seen.instance.None? then None
      else Some(Target(seen.classCode.value, seen.instance.value, seen.attribute))
    else if path[offset] == 0 then ParseFrom(path, offset + 1, seen)
    else
      var code := path[offset];
      var read, kind := ReadPathValue(path, offset + 1, code), KindOf(code);
      if read.None? || kind.None? then None
      else ParseFrom(path, read.value.1, Note(seen, kind.value, read.value.0))
  }

  const NOTHING_SEEN := Seen(None, None, None)

  function ParsePath(path: seq<Byte>): Option<Target> {
    ParseFrom(path, 0, NOTHING_SEEN)
  }

  /** The loop of the path parser; the offset stays in range and the loop terminates. */
  method ParseCipPath(path: seq<Byte>) returns (target: Option<Target>)
    ensures target == ParsePath(path)
  {
    var classCode, instance, attribute := None, None, None;
    var offset := 0;
    while offset < |path|
      invariant 0 <= offset <= |path|
      invariant ParsePath(path) == ParseFrom(path, offset, Seen(classCode, instance, attribute))
    {
      var code := path[offset];
      if code == 0 {
        offset := offset + 1;
        continue;
      }
      var read := ReadPathValue(path, offset + 1, code);
      if read.None? {
        return None;
      }
      var kind := KindOf(code);
      if kind.None? {
        return None;
      }
      var value := read.value.0;
      offset := read.value.1;
      match kind.value {
        case Class => classCode := Some(value);
        case Instance => instance := Some(value);
        case Attribute => attribute := Some(value);
      }
    }
    if classCode.None? || instance.None? {
      return None;
    }
    return Some(Target(classCode.value, instance.value, attribute));
  }

  // ---------------------------------------------------------------- parser against grammar

  /** Reading one encoded segment from the middle of a path. */
  lemma ReadSegment(prefix: seq<Byte>, s: Segment, rest: seq<Byte>)
    requires s.Logical? && SegmentFits(s)
    ensures var path, at := prefix + EncodeSegment(s) + rest, |prefix|;
            && path[at] == SegmentCode(s.kind, s.width) != 0
            && KindOf(path[at]) == Some(s.kind)
            && ReadPathValue(path, at + 1, path[at]) == Some((s.value, at + |EncodeSegment(s)|))
  {
  }

  /** The last value of a kind, looked up from the front. */
  lemma {:induction false} LastOfCons(s: Segment, rest: seq<Segment>, kind: Kind)
    ensures LastOf([s] + rest, kind)
            == if LastOf(rest, kind).Some? then LastOf(rest, kind)
               else if s.Logical? && s.kind == kind then Some(s.value) else None
  {
    if rest != [] {
      var n := |rest| - 1;
      assert ([s] + rest)[..|rest|] == [s] + rest[..n];
      LastOfCons(s, rest[..n], kind);
    } else {
      assert [s] + rest == [s] && [s][..0] == [];
    }
  }

  function Later(seen: Option<U32>, last: Option<U32>): Option<U32> {
    if last.Some? then last else seen
  }

  /** What the parser answers when it still has the given segments in front of it. */
  function Finish(seen: Seen, segments: seq<Segment>): Option<Target> {
    var c := Later(seen.classCode, LastOf(segments, Class));
    var i := Later(seen.instance, LastOf(segments, Instance));
    if c.None? || i.None? then None
    else Some(Target(c.value, i.value, Later(seen.attribute, LastOf(segments, Attribute))))
  }

  lemma FinishCons(seen: Seen, s: Segment, rest: seq<Segment>)
    ensures Finish(seen, [s] + rest)
            == Finish(NoteSegment(seen, s), rest)
  {
    LastOfCons(s, rest, Class);
    LastOfCons(s, rest, Instance);
    LastOfCons(s, rest, Attribute);
  }

  function NoteSegment(seen: Seen, s: Segment): Seen {
    match s
    case Pad => seen
    case Logical(kind, _, value) => Note(seen, kind, value)
  }

  /** One turn of the parsing loop consumes one encoded segment. */
  lemma ParseSegment(prefix: seq<Byte>, s: Segment, rest: seq<Byte>, seen: Seen)
    requires SegmentFits(s)
    ensures var path := prefix + EncodeSegment(s) + rest;
            ParseFrom(path, |prefix|, seen)
            == ParseFrom(path, |prefix + EncodeSegment(s)|, NoteSegment(seen, s))
  {
    if s.Logical? {
      ReadSegment(prefix, s, rest);
    }
  }

  lemma {:induction false} ParseEncodedFrom(prefix: seq<Byte>, segments: seq<Segment>, seen: Seen)
    requires PathFits(segments)
    ensures ParseFrom(prefix + EncodePath(segments), |prefix|, seen) == Finish(seen, segments)
    decreases |segments|
  {
    hide EncodeSegment, ReadPathValue, KindOf, SegmentFits, NoteSegment;
    if segments != [] {
      hide ParseFrom, Finish;
      var s, rest := segments[0], segments[1..];
      var path := prefix + EncodePath(segments);
      var prefix' := prefix + EncodeSegment(s);
      assert segments == [s] + rest;
      assert path == prefix' + EncodePath(rest);
      FinishCons(seen, s, rest);
      ParseSegment(prefix, s, EncodePath(rest), seen);
      ParseEncodedFrom(prefix', rest, NoteSegment(seen, s));
    }
  }

  /** Every path of the grammar, in any order, width and padding, parses to what it denotes. */
  lemma ParseEncodedPath(segments: seq<Segment>)
    requires PathFits(segments)
    ensures ParsePath(EncodePath(segments)) == Meaning(segments)
  {
    ParseEncodedFrom([], segments, NOTHING_SEEN);
    assert [] + EncodePath(segments) == EncodePath(segments);
  }

  /** A value the parser read is the encoding of one segment. */
  lemma ReadIsSegment(path: seq<Byte>, at: nat) returns (s: Segment)
    requires at < |path| && path[at] != 0
    requires ReadPathValue(path, at + 1, path[at]).Some? && KindOf(path[at]).Some?
    ensures s.Logical? && SegmentFits(s) && KindOf(path[at]) == Some(s.kind)
    ensures var (value, next) := ReadPathValue(path, at + 1, path[at]).value;
            s.value == value && EncodeSegment(s) == path[at..next]
  {
    var code := path[at];
    var (value, next) := ReadPathValue(path, at + 1, code).value;
    assert path[at..next] == [code] + path[at + 1..next];
    if code in {0x20, 0x24, 0x30} {
      s := Logical(KindOf(code).value, W8, value);
      assert path[at + 1..next] == [value];
    } else if code in {0x21, 0x25, 0x31} {
      s := Logical(KindOf(code).value, W16, value);
      PackOfUnpackU16Le(path, at + 1);
    } else {
      s := Logical(KindOf(code).value, W32, value);
      PackOfUnpackU32Le(path, at + 1);
    }
  }

  /** One turn of the parsing loop passed over the encoding of one segment. */
  lemma TurnIsSegment(path: seq<Byte>, offset: nat, seen: Seen) returns (s: Segment, next: nat)
    requires offset < |path| && ParseFrom(path, offset, seen).Some?
    ensures SegmentFits(s) && offset < next <= |path| && EncodeSegment(s) == path[offset..next]
    ensures ParseFrom(path, offset, seen) == ParseFrom(path, next, NoteSegment(seen, s))
  {
    hide EncodeSegment, SegmentFits, ReadPathValue, KindOf;
    if path[offset] == 0 {
      s, next := Pad, offset + 1;
      PadIsZero(path, offset);
    } else {
      s := ReadIsSegment(path, offset);
      next := ReadPathValue(path, offset + 1, path[offset]).value.1;
    }
  }

  lemma PadIsZero(path: seq<Byte>, at: nat)
    requires at < |path| && path[at] == 0
    ensures SegmentFits(Pad) && EncodeSegment(Pad) == path[at..at + 1]
  {
  }

  lemma {:induction false} ParsedIsEncodedFrom(path: seq<Byte>, offset: nat, seen: Seen)
    returns (segments: seq<Segment>)
    requires offset <= |path| && ParseFrom(path, offset, seen).Some?
    ensures PathFits(segments) && EncodePath(segments) == path[offset..]
    decreases |path| - offset
  {
    hide EncodeSegment, SegmentFits, ParseFrom, NoteSegment;
    if offset == |path| {
      segments := [];
    } else {
      var s, next := TurnIsSegment(path, offset, seen);
      var tail := ParsedIsEncodedFrom(path, next, NoteSegment(seen, s));
      segments := [s] + tail;
      assert segments[1..] == tail;
      assert path[offset..] == path[offset..next] + path[next..];
    }
  }

  /**
   * The parser accepts a byte string exactly when it is a path of the grammar that holds a class
   * and an instance, and then answers the last value of each kind. On every other byte string it
   * raises ValueError.
   */
  lemma ParsesExactly(path: seq<Byte>, target: Target)
    ensures ParsePath(path) == Some(target)
            <==> exists segments ::
                   PathFits(segments) && EncodePath(segments) == path && Meaning(segments) == Some(target)
  {
    if ParsePath(path) == Some(target) {
      var segments := ParsedIsEncodedFrom(path, 0, NOTHING_SEEN);
      ParseEncodedPath(segments);
    }
    forall segments | PathFits(segments) && EncodePath(segments) == path && Meaning(segments) == Some(target)
      ensures ParsePath(path) == Some(target)
    {
      ParseEncodedPath(segments);
    }
  }

  function Missing(before: Option<U32>, after: Option<U32>): nat {
    if before.None? && after.Some? then 2 else 0
  }

  lemma {:induction false} ParseSpends(path: seq<Byte>, offset: nat, seen: Seen)
    requires offset <= |path| && ParseFrom(path, offset, seen).Some?
    ensures var t := ParseFrom(path, offset, seen).value;
            |path| - offset >= Missing(seen.classCode, Some(t.classCode))
                               + Missing(seen.instance, Some(t.instance))
                               + Missing(seen.attribute, t.attribute)
    decreases |path| - offset
  {
    if offset < |path| {
      if path[offset] == 0 {
        ParseSpends(path, offset + 1, seen);
      } else {
        var read := ReadPathValue(path, offset + 1, path[offset]).value;
        ParseSpends(path, read.1, Note(seen, KindOf(path[offset]).value, read.0));
      }
    }
  }

  /** A path that names an attribute is at least six bytes long. */
  lemma AttributePathLength(path: seq<Byte>)
    requires ParsePath(path).Some?
    ensures |path| >= if ParsePath(path).value.attribute.Some? then 6 else 4
  {
    ParseSpends(path, 0, NOTHING_SEEN);
  }

  // ---------------------------------------------------------------- octets

  /** The segments of a path, octet by octet. */
  lemma SegmentOctets(kind: Kind, v: U32)
    ensures var code: Byte := match kind case Class => 0x20 case Instance => 0x24 case Attribute => 0x30;
            && (v < 0x100 ==> EncodeSegment(Logical(kind, W8, v)) == [code, v])
            && (v < 0x1_0000 ==> EncodeSegment(Logical(kind, W16, v)) == [code + 1, v % 0x100, v / 0x100])
            && EncodeSegment(Logical(kind, W32, v))
               == [code + 2, v % 0x100, v / 0x100 % 0x100, v / 0x1_0000 % 0x100, v / 0x100_0000]
  {
    hide PackU32Le;
    OctetsU32Le(v);
  }

  /** The usual paths, with an attribute and without. */
  lemma BytePath(c: Byte, i: Byte, a: Byte)
    ensures ParsePath([0x20, c, 0x24, i, 0x30, a]) == Some(Target(c, i, Some(a)))
    ensures ParsePath([0x20, c, 0x24, i]) == Some(Target(c, i, None))
  {
    hide EncodePath, EncodeSegment, ParsePath, Meaning;
    var s, t, u := Logical(Class, W8, c), Logical(Instance, W8, i), Logical(Attribute, W8, a);
    ThreeSegments(s, t, u);
    SegmentOctets(Class, c);
    SegmentOctets(Instance, i);
    SegmentOctets(Attribute, a);
    assert [0x20, c] + [0x24, i] + [0x30, a] == [0x20, c, 0x24, i, 0x30, a];
    assert [0x20, c] + [0x24, i] == [0x20, c, 0x24, i];
    ParseEncodedPath([s, t, u]);
    ParseEncodedPath([s, t]);
  }

  lemma ThreeSegments(s: Segment, t: Segment, u: Segment)
    requires SegmentFits(s) && SegmentFits(t) && SegmentFits(u)
    requires s.Logical? && s.kind == Class && t.Logical? && t.kind == Instance && u.Logical? && u.kind == Attribute
    ensures EncodePath([s, t, u]) == EncodeSegment(s) + EncodeSegment(t) + EncodeSegment(u)
    ensures EncodePath([s, t]) == EncodeSegment(s) + EncodeSegment(t)
    ensures Meaning([s, t, u]) == Some(Target(s.value, t.value, Some(u.value)))
    ensures Meaning([s, t]) == Some(Target(s.value, t.value, None))
  {
    hide EncodeSegment;
    assert [s, t, u][1..] == [t, u] && [t, u][1..] == [u] && [s, t][1..] == [t] && [u][1..] == [] && [t][1..] == [];
    assert EncodePath([u]) == EncodeSegment(u) + EncodePath([]) && EncodePath([t]) == EncodeSegment(t) + EncodePath([]);
    assert EncodePath([t, u]) == EncodeSegment(t) + EncodePath([u]);
    assert [s, t, u][..2] == [s, t] && [s, t][..1] == [s] && [s][..0] == [];
    assert LastOf([s], Class) == Some(s.value);
    assert LastOf([s], Attribute) == LastOf([], Attribute) == None;
    assert LastOf([s, t], Class) == LastOf([s], Class) && LastOf([s, t, u], Class) == LastOf([s, t], Class);
    assert LastOf([s, t], Attribute) == LastOf([s], Attribute);
    assert LastOf([s, t, u], Instance) == LastOf([s, t], Instance);
  }
}
