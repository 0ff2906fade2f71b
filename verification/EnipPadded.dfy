/**
 * Paths in the padded form of appendix C-1.4 of volume 1 of the CIP specification, where a pad byte
 * stands behind the code of a 16- or 32-bit segment, and what the server's path parser makes of them.
 */
module EnipPadded {
  import opened Wrappers
  import opened Bytes
  import opened EnipPath
  import opened EnipObjects

  function EncodePaddedSegment(s: Segment): seq<Byte>
    requires SegmentFits(s)
  {
    match s
    case Pad => [0]
    case Logical(k, W8, v) => [SegmentCode(k, W8), v]
    case Logical(k, W16, v) => [SegmentCode(k, W16), 0] + PackU16Le(v)
    case Logical(k, W32, v) => [SegmentCode(k, W32), 0] + PackU32Le(v)
  }

  function EncodePadded(segments: seq<Segment>): seq<Byte>
    requires PathFits(segments)
  {
    if segments == [] then [] else EncodePaddedSegment(segments[0]) + EncodePadded(segments[1..])
  }

  /** A segment with a pad byte behind its code. */
  predicate IsLong(s: Segment) {
    s.Logical? && s.width != W8
  }

  // ---------------------------------------------------------------- paths that are accepted, and misread

  /** The highest byte of the value is not used. */
  predicate TopFree(s: Segment) {
    IsLong(s) ==> s.value < if s.width.W16? then 0x100 else 0x100_0000
  }

  predicate AllTopFree(segments: seq<Segment>) {
    forall k :: 0 <= k < |segments| ==> TopFree(segments[k])
  }

  /** The pad byte is taken for the lowest byte of the value. */
  function Misread(s: Segment): Segment
    requires TopFree(s)
  {
    if IsLong(s) then s.(value := 0x100 * s.value) else s
  }

  function MisreadAll(segments: seq<Segment>): seq<Segment>
    requires AllTopFree(segments)
  {
    seq(|segments|, k requires 0 <= k < |segments| => Misread(segments[k]))
  }

  /** The same path in the server's own grammar: the highest byte is left over as a pad. */
  function Unpadded(segments: seq<Segment>): seq<Segment>
    requires AllTopFree(segments)
  {
    if segments == [] then []
    else
      var tail := Unpadded(segments[1..]);
      [Misread(segments[0])] + if IsLong(segments[0]) then [Pad] + tail else tail
  }

  lemma ShiftedWord(v: U16)
    requires v < 0x100
    ensures [0] + PackU16Le(v) == PackU16Le(0x100 * v) + [0]
  {
  }

  lemma BytesOf(v: U32) returns (b: seq<Byte>)
    ensures PackU32Le(v) == b && |b| == 4
    ensures v as int == b[0] as int + 0x100 * (b[1] as int) + 0x1_0000 * (b[2] as int) + 0x100_0000 * (b[3] as int)
  {
    b := PackU32Le(v);
  }

  lemma PackBytes(b0: Byte, b1: Byte, b2: Byte, b3: Byte)
    ensures PackU32Le(b0 + 0x100 * b1 + 0x1_0000 * b2 + 0x100_0000 * b3) == [b0, b1, b2, b3]
  {
    PackOfUnpackU32Le([b0, b1, b2, b3], 0);
  }

  lemma ShiftedDoubleWord(v: U32)
    requires v < 0x100_0000
    ensures [0] + PackU32Le(v) == PackU32Le(0x100 * v) + [0]
  {
    hide PackU32Le;
    var b := BytesOf(v);
    PackBytes(0, b[0], b[1], b[2]);
    assert b == [b[0], b[1], b[2], b[3]] && b[3] == 0;
  }

  lemma UnpaddedSegment(s: Segment)
    requires SegmentFits(s) && TopFree(s)
    ensures SegmentFits(Misread(s))
    ensures EncodePaddedSegment(s) == EncodeSegment(Misread(s)) + if IsLong(s) then [0] else []
  {
    hide PackU16Le, PackU32Le;
    if IsLong(s) {
      var code := SegmentCode(s.kind, s.width);
      if s.width.W16? {
        ShiftedWord(s.value);
        assert [code, 0] + PackU16Le(s.value) == [code] + ([0] + PackU16Le(s.value));
      } else {
        ShiftedDoubleWord(s.value);
        assert [code, 0] + PackU32Le(s.value) == [code] + ([0] + PackU32Le(s.value));
      }
    }
  }

  lemma PadInFront(segments: seq<Segment>)
    requires PathFits(segments)
    ensures PathFits([Pad] + segments) && EncodePath([Pad] + segments) == [0] + EncodePath(segments)
  {
    assert ([Pad] + segments)[1..] == segments;
  }

  lemma UnpaddedFirst(s: Segment, rest: seq<Segment>)
    requires SegmentFits(s) && TopFree(s) && PathFits(rest)
    ensures var segments := [Misread(s)] + if IsLong(s) then [Pad] + rest else rest;
            PathFits(segments) && EncodePath(segments) == EncodePaddedSegment(s) + EncodePath(rest)
  {
    hide EncodeSegment, EncodePaddedSegment, IsLong, Misread;
    UnpaddedSegment(s);
    PadInFront(rest);
    var tail := if IsLong(s) then [Pad] + rest else rest;
    assert ([Misread(s)] + tail)[1..] == tail;
  }

  lemma {:induction false} UnpaddedEncodes(segments: seq<Segment>)
    requires PathFits(segments) && AllTopFree(segments)
    ensures PathFits(Unpadded(segments)) && EncodePath(Unpadded(segments)) == EncodePadded(segments)
    decreases |segments|
  {
    if segments != [] {
      hide EncodePath, EncodePaddedSegment, SegmentFits, IsLong, Misread;
      UnpaddedEncodes(segments[1..]);
      UnpaddedFirst(segments[0], Unpadded(segments[1..]));
    }
  }

  lemma {:induction false} UnpaddedKeepsLast(segments: seq<Segment>, kind: Kind)
    requires AllTopFree(segments)
    ensures LastOf(Unpadded(segments), kind) == LastOf(MisreadAll(segments), kind)
    decreases |segments|
  {
    if segments != [] {
      hide LastOf, IsLong, Misread;
      var s, rest := segments[0], Unpadded(segments[1..]);
      UnpaddedKeepsLast(segments[1..], kind);
      LastOfCons(Misread(s), if IsLong(s) then [Pad] + rest else rest, kind);
      LastOfCons(Pad, rest, kind);
      assert MisreadAll(segments) == [Misread(s)] + MisreadAll(segments[1..]);
      LastOfCons(Misread(s), MisreadAll(segments[1..]), kind);
    }
  }

  /** A path whose long values leave their highest byte free is accepted with each of them multiplied by 256. */
  lemma MisreadPath(segments: seq<Segment>)
    requires PathFits(segments) && AllTopFree(segments)
    ensures ParsePath(EncodePadded(segments)) == Meaning(MisreadAll(segments))
  {
    hide LastOf, ParsePath, Unpadded, MisreadAll, AllTopFree;
    UnpaddedEncodes(segments);
    ParseEncodedPath(Unpadded(segments));
    UnpaddedKeepsLast(segments, Class);
    UnpaddedKeepsLast(segments, Instance);
    UnpaddedKeepsLast(segments, Attribute);
  }

  // ---------------------------------------------------------------- paths that are understood

  function NonZero(bytes: seq<Byte>): nat {
    if bytes == [] then 0 else (if bytes[0] != 0 then 1 else 0) + NonZero(bytes[1..])
  }

  lemma {:induction false} NonZeroConcat(a: seq<Byte>, b: seq<Byte>)
    ensures NonZero(a + b) == NonZero(a) + NonZero(b)
    decreases |a|
  {
    if a == [] {
      assert a + b == b;
    } else {
      assert (a + b)[1..] == a[1..] + b;
      NonZeroConcat(a[1..], b);
    }
  }

  /** How many bytes of a value are not zero. */
  function Weight(v: U32): nat {
    NonZero(PackU32Le(v))
  }

  lemma WeightOfShort(v: U32)
    ensures v < 0x100 ==> Weight(v) == NonZero([v])
    ensures v < 0x1_0000 ==> Weight(v) == NonZero(PackU16Le(v))
    ensures v != 0 ==> Weight(v) >= 1
  {
    var b := BytesOf(v);
    hide PackU32Le, NonZero;
    assert b == [b[0]] + ([b[1]] + ([b[2]] + [b[3]]));
    NonZeroConcat([b[0]], [b[1]] + ([b[2]] + [b[3]]));
    NonZeroConcat([b[1]], [b[2]] + [b[3]]);
    NonZeroConcat([b[2]], [b[3]]);
    NonZeroConcat([b[0]], [b[1]]);
    assert [b[0]] + [b[1]] == [b[0], b[1]];
    NonZeroOfOne(b[0]);
    NonZeroOfOne(b[1]);
    NonZeroOfOne(b[2]);
    NonZeroOfOne(b[3]);
  }

  lemma NonZeroOfOne(b: Byte)
    ensures NonZero([b]) == if b != 0 then 1 else 0
  {
  }

  /** Reading a value uses up its code and its bytes. */
  lemma ReadUses(path: seq<Byte>, at: nat)
    requires at < |path| && path[at] != 0 && ReadPathValue(path, at + 1, path[at]).Some?
    ensures var (value, next) := ReadPathValue(path, at + 1, path[at]).value;
            NonZero(path[at..]) == 1 + Weight(value) + NonZero(path[next..])
  {
    hide NonZero, Weight, PackU16Le, PackU32Le, UnpackU16Le, UnpackU32Le;
    var (value, next) := ReadPathValue(path, at + 1, path[at]).value;
    assert path[at..] == [path[at]] + (path[at + 1..next] + path[next..]);
    NonZeroConcat([path[at]], path[at + 1..next] + path[next..]);
    NonZeroConcat(path[at + 1..next], path[next..]);
    NonZeroOfOne(path[at]);
    WeightOfShort(value);
    if next == at + 2 {
      assert path[at + 1..next] == [value];
    } else if next == at + 3 {
      PackOfUnpackU16Le(path, at + 1);
    } else {
      PackOfUnpackU32Le(path, at + 1);
      assert Weight(value) == NonZero(PackU32Le(value)) by {
        WeightIsNonZero(value);
      }
    }
  }

  lemma WeightIsNonZero(v: U32)
    ensures Weight(v) == NonZero(PackU32Le(v))
  {
  }

  /** The nonzero bytes the parser still has to see before its variable holds a final value. */
  function Need(seen: Option<U32>, final: Option<U32>): nat {
    if final.None? || seen == final then 0 else 1 + Weight(final.value)
  }

  function Needs(seen: Seen, t: Target): nat {
    Need(seen.classCode, Some(t.classCode)) + Need(seen.instance, Some(t.instance)) + Need(seen.attribute, t.attribute)
  }

  lemma NoteNeeds(seen: Seen, t: Target, kind: Kind, value: U32)
    ensures Needs(seen, t) <= Needs(Note(seen, kind, value), t) + 1 + Weight(value)
  {
  }

  /** No byte is read twice: what is missing has to stand, nonzero byte by nonzero byte, in the rest of the path. */
  lemma {:induction false} NeedsAreMet(path: seq<Byte>, offset: nat, seen: Seen, t: Target)
    requires offset <= |path| && ParseFrom(path, offset, seen) == Some(t)
    ensures Needs(seen, t) <= NonZero(path[offset..])
    decreases |path| - offset
  {
    if offset < |path| {
      hide ReadPathValue, KindOf, Needs, Note, Weight;
      if path[offset] == 0 {
        NeedsAreMet(path, offset + 1, seen, t);
        assert path[offset..][1..] == path[offset + 1..];
      } else {
        var (value, next) := ReadPathValue(path, offset + 1, path[offset]).value;
        var kind := KindOf(path[offset]).value;
        ReadUses(path, offset);
        NeedsAreMet(path, next, Note(seen, kind, value), t);
        NoteNeeds(seen, t, kind, value);
      }
    }
  }

  // ---------------------------------------------------------------- the exact condition

  /** No class, instance or attribute is named twice. */
  predicate NamesOnce(segments: seq<Segment>) {
    forall j, k :: 0 <= j < k < |segments| && segments[j].Logical? && segments[k].Logical? ==>
                     segments[j].kind != segments[k].kind
  }

  function SeenOf(seen: Seen, kind: Kind): Option<U32> {
    match kind
    case Class => seen.classCode
    case Instance => seen.instance
    case Attribute => seen.attribute
  }

  function FinalOf(t: Target, kind: Kind): Option<U32> {
    match kind
    case Class => Some(t.classCode)
    case Instance => Some(t.instance)
    case Attribute => t.attribute
  }

  /** The target has the values of the segments. */
  predicate Intended(segments: seq<Segment>, t: Target) {
    forall k :: 0 <= k < |segments| && segments[k].Logical? ==> FinalOf(t, segments[k].kind) == Some(segments[k].value)
  }

  /** The parser has the value of no segment yet. */
  predicate Unmet(segments: seq<Segment>, seen: Seen) {
    forall k :: 0 <= k < |segments| && segments[k].Logical? ==>
                  SeenOf(seen, segments[k].kind) != Some(segments[k].value)
  }

  lemma PaddedUses(s: Segment)
    requires SegmentFits(s)
    ensures NonZero(EncodePaddedSegment(s)) == if s.Logical? then 1 + Weight(s.value) else 0
  {
    hide NonZero, Weight, PackU16Le, PackU32Le;
    NonZeroOfOne(0);
    if s.Logical? {
      var code := SegmentCode(s.kind, s.width);
      NonZeroOfOne(code);
      NonZeroConcat([code], [0]);
      assert [code] + [0] == [code, 0];
      WeightOfShort(s.value);
      match s.width {
        case W8 =>
          assert [code] + [s.value] == [code, s.value];
          NonZeroConcat([code], [s.value]);
        case W16 => NonZeroConcat([code, 0], PackU16Le(s.value));
        case W32 =>
          NonZeroConcat([code, 0], PackU32Le(s.value));
          WeightIsNonZero(s.value);
      }
    }
  }

  /** Segments that are all still to be read are as much as their bytes can supply. */
  lemma {:induction false} UnmetNeeds(segments: seq<Segment>, seen: Seen, t: Target)
    requires PathFits(segments) && NamesOnce(segments) && Intended(segments, t) && Unmet(segments, seen)
    ensures NonZero(EncodePadded(segments)) <= Needs(seen, t)
    decreases |segments|
  {
    if segments != [] {
      hide EncodePaddedSegment, NonZero, Weight;
      var s, rest := segments[0], segments[1..];
      NonZeroConcat(EncodePaddedSegment(s), EncodePadded(rest));
      PaddedUses(s);
      UnmetNeeds(rest, NoteSegment(seen, s), t);
    }
  }

  /** The value the parser reads from the pad byte on is wrong unless it is 0. */
  lemma MisreadWord(path: seq<Byte>, at: nat, v: U16)
    requires at + 3 <= |path| && path[at] == 0 && path[at + 1..at + 3] == PackU16Le(v)
    ensures UnpackU16Le(path, at) == v <==> v == 0
    ensures v == 0 ==> path[at + 2] == 0
  {
    assert path[at + 1..at + 3][0] == path[at + 1] && path[at + 1..at + 3][1] == path[at + 2];
  }

  lemma UnpackIsSum(path: seq<Byte>, at: nat)
    requires at + 4 <= |path|
    ensures UnpackU32Le(path, at) as int
            == path[at] as int + 0x100 * (path[at + 1] as int) + 0x1_0000 * (path[at + 2] as int)
               + 0x100_0000 * (path[at + 3] as int)
  {
  }

  lemma ShiftedSum(b0: int, b1: int, b2: int, b3: int)
    requires 0 <= b0 < 0x100 && 0 <= b1 < 0x100 && 0 <= b2 < 0x100 && 0 <= b3 < 0x100
    requires 0x100 * b0 + 0x1_0000 * b1 + 0x100_0000 * b2 == b0 + 0x100 * b1 + 0x1_0000 * b2 + 0x100_0000 * b3
    ensures b0 == b1 == b2 == b3 == 0
  {
  }

  lemma MisreadDoubleWord(path: seq<Byte>, at: nat, v: U32)
    requires at + 5 <= |path| && path[at] == 0 && path[at + 1..at + 5] == PackU32Le(v)
    ensures UnpackU32Le(path, at) == v <==> v == 0
    ensures v == 0 ==> path[at + 4] == 0
  {
    hide PackU32Le, UnpackU32Le;
    var b := BytesOf(v);
    assert path[at + 1] == b[0] && path[at + 2] == b[1] && path[at + 3] == b[2] && path[at + 4] == b[3];
    UnpackIsSum(path, at);
    if UnpackU32Le(path, at) == v {
      ShiftedSum(b[0], b[1], b[2], b[3]);
    }
  }

  /** The parser's turn on a long segment stops before its highest byte, with a wrong value unless that is 0. */
  lemma LongTurn(path: seq<Byte>, at: nat, s: Segment, seen: Seen) returns (value: U32)
    requires SegmentFits(s) && IsLong(s) && at <= |path| && EncodePaddedSegment(s) <= path[at..]
    ensures value == s.value <==> s.value == 0
    ensures var last := at + |EncodePaddedSegment(s)| - 1;
            && last >= at && (s.value == 0 ==> path[last] == 0)
            && ParseFrom(path, at, seen) == ParseFrom(path, last, Note(seen, s.kind, value))
  {
    hide PackU16Le, PackU32Le, UnpackU16Le, UnpackU32Le;
    var bytes := EncodePaddedSegment(s);
    PackedLength(s.value);
    assert path[at..][..|bytes|] == bytes;
    assert path[at] == bytes[0] == SegmentCode(s.kind, s.width) && path[at + 1] == bytes[1] == 0;
    if s.width.W16? {
      assert path[at + 2..at + 4] == bytes[2..];
      MisreadWord(path, at + 1, s.value);
      value := UnpackU16Le(path, at + 1);
    } else {
      assert path[at + 2..at + 6] == bytes[2..];
      MisreadDoubleWord(path, at + 1, s.value);
      value := UnpackU32Le(path, at + 1);
    }
  }

  lemma PackedLength(v: U32)
    ensures |PackU32Le(v)| == 4
    ensures v < 0x1_0000 ==> |PackU16Le(v)| == 2
  {
  }

  predicate LongsAreZero(segments: seq<Segment>) {
    forall k :: 0 <= k < |segments| && IsLong(segments[k]) ==> segments[k].value == 0
  }

  /** A long value that was misread cannot be made good by the rest of the path. */
  lemma MisreadStays(path: seq<Byte>, start: nat, segments: seq<Segment>, seen: Seen, t: Target)
    requires PathFits(segments) && NamesOnce(segments) && Intended(segments, t) && Unmet(segments, seen)
    requires segments != [] && IsLong(segments[0]) && segments[0].value != 0
    requires start < |path| && path[start + 1..] == EncodePadded(segments[1..])
    ensures ParseFrom(path, start, seen) != Some(t)
  {
    hide ParseFrom, EncodePaddedSegment, NonZero, Weight, Needs, Unmet, Intended, NamesOnce;
    if ParseFrom(path, start, seen) == Some(t) {
      var s, rest := segments[0], EncodePadded(segments[1..]);
      NeedsAreMet(path, start, seen, t);
      UnmetNeeds(segments, seen, t);
      PaddedUses(s);
      NonZeroConcat(EncodePaddedSegment(s), rest);
      assert path[start..] == [path[start]] + rest;
      NonZeroConcat([path[start]], rest);
      NonZeroOfOne(path[start]);
      WeightOfShort(s.value);
      assert false;
    }
  }

  /** The parser has seen nothing of the kinds that the segments name. */
  predicate Unseen(segments: seq<Segment>, seen: Seen) {
    forall k :: 0 <= k < |segments| && segments[k].Logical? ==> SeenOf(seen, segments[k].kind) == None
  }

  lemma RestIsUnseen(segments: seq<Segment>, seen: Seen, t: Target, value: U32)
    requires PathFits(segments) && NamesOnce(segments) && Intended(segments, t) && Unseen(segments, seen)
    requires segments != []
    ensures var s, rest := segments[0], segments[1..];
            var seen' := if s.Logical? then Note(seen, s.kind, value) else seen;
            && PathFits(rest) && NamesOnce(rest) && Intended(rest, t) && Unseen(rest, seen')
            && (s.Logical? && value != s.value ==> Unmet(segments, seen'))
  {
  }

  lemma NothingIsZero()
    ensures LongsAreZero([])
  {
  }

  lemma ZeroCons(segments: seq<Segment>)
    requires segments != [] && LongsAreZero(segments[1..]) && (IsLong(segments[0]) ==> segments[0].value == 0)
    ensures LongsAreZero(segments)
  {
  }

  lemma SkipPad(path: seq<Byte>, at: nat, seen: Seen)
    requires at < |path| && path[at] == 0
    ensures ParseFrom(path, at, seen) == ParseFrom(path, at + 1, seen)
  {
  }

  lemma ShortTurn(path: seq<Byte>, at: nat, s: Segment, seen: Seen)
    requires SegmentFits(s) && !IsLong(s) && at <= |path| && EncodePaddedSegment(s) <= path[at..]
    ensures ParseFrom(path, at, seen) == ParseFrom(path, at + |EncodePaddedSegment(s)|, NoteSegment(seen, s))
  {
    hide ParseFrom, NoteSegment;
    var bytes := EncodePaddedSegment(s);
    assert bytes == EncodeSegment(s);
    assert path == path[..at] + bytes + path[at + |bytes|..];
    ParseSegment(path[..at], s, path[at + |bytes|..], seen);
  }

  lemma {:induction false} UnderstoodMeansZero(path: seq<Byte>, at: nat, segments: seq<Segment>, seen: Seen, t: Target)
    requires PathFits(segments) && NamesOnce(segments) && Intended(segments, t) && Unseen(segments, seen)
    requires at <= |path| && path[at..] == EncodePadded(segments)
    requires ParseFrom(path, at, seen) == Some(t)
    ensures LongsAreZero(segments)
    decreases |segments|
  {
    hide ParseFrom, EncodePaddedSegment, SegmentFits, NamesOnce, Intended, Unseen, Unmet, LongsAreZero, Note;
    if segments == [] {
      NothingIsZero();
    } else {
      var s, rest := segments[0], segments[1..];
      var next := at + |EncodePaddedSegment(s)|;
      assert path[next..] == EncodePadded(rest);
      if IsLong(s) {
        var value := LongTurn(path, at, s, seen);
        RestIsUnseen(segments, seen, t, value);
        if s.value != 0 {
          MisreadStays(path, next - 1, segments, Note(seen, s.kind, value), t);
        }
        SkipPad(path, next - 1, Note(seen, s.kind, value));
        UnderstoodMeansZero(path, next, rest, Note(seen, s.kind, value), t);
      } else {
        ShortTurn(path, at, s, seen);
        RestIsUnseen(segments, seen, t, if s.Logical? then s.value else 0);
        UnderstoodMeansZero(path, next, rest, NoteSegment(seen, s), t);
      }
      ZeroCons(segments);
    }
  }

  lemma {:induction false} NamedOnceIsLast(segments: seq<Segment>, k: nat)
    requires NamesOnce(segments) && k < |segments| && segments[k].Logical?
    ensures LastOf(segments, segments[k].kind) == Some(segments[k].value)
    decreases |segments|
  {
    if k < |segments| - 1 {
      NamedOnceIsLast(segments[..|segments| - 1], k);
    }
  }

  /**
   * A padded path, in any order and with any widths, that names its class, instance and attribute
   * once each is understood exactly if all its 16- and 32-bit values are 0.
   */
  lemma PaddedPathExactly(segments: seq<Segment>, t: Target)
    requires PathFits(segments) && NamesOnce(segments) && Meaning(segments) == Some(t)
    ensures ParsePath(EncodePadded(segments)) == Some(t) <==> LongsAreZero(segments)
  {
    hide LastOf, ParseFrom, EncodePadded;
    if LongsAreZero(segments) {
      MisreadPath(segments);
      assert MisreadAll(segments) == segments;
    }
    if ParsePath(EncodePadded(segments)) == Some(t) {
      forall k | 0 <= k < |segments| && segments[k].Logical?
        ensures LastOf(segments, segments[k].kind) == Some(segments[k].value)
      {
        NamedOnceIsLast(segments, k);
      }
      UnderstoodMeansZero(EncodePadded(segments), 0, segments, NOTHING_SEEN, t);
    }
  }

  // ---------------------------------------------------------------- what a misread path leads to

  /** The path of an assembly's data as a client that pads writes it. */
  function PaddedAssemblyPath(width: Width, i: U32): seq<Segment> {
    [Logical(Class, W8, 4), Logical(Instance, width, i), Logical(Attribute, W8, 3)]
  }

  lemma AssemblyPathMeans(width: Width, i: U32)
    ensures Meaning(PaddedAssemblyPath(width, i)) == Some(Target(4, i, Some(3)))
  {
    var path := PaddedAssemblyPath(width, i);
    assert NamesOnce(path);
    NamedOnceIsLast(path, 0);
    NamedOnceIsLast(path, 1);
    NamedOnceIsLast(path, 2);
  }

  lemma PaddedAssemblyLength(width: Width, i: U32)
    requires SegmentFits(Logical(Instance, width, i))
    ensures var path := PaddedAssemblyPath(width, i);
            && PathFits(path)
            && |EncodePadded(path)| == match width case W8 => 6 case W16 => 8 case W32 => 10
  {
    var path := PaddedAssemblyPath(width, i);
    var rest, last := [path[1], path[2]], [path[2]];
    assert path[1..] == rest && rest[1..] == last && last[1..] == [];
    assert EncodePadded(last) == EncodePaddedSegment(path[2]) + EncodePadded([]);
    assert EncodePadded(rest) == EncodePaddedSegment(path[1]) + EncodePadded(last);
    PackedLength(i);
  }

  /** A write request with a padded path. */
  function PaddedWrite(width: Width, i: U32, data: seq<Byte>): seq<Byte>
    requires SegmentFits(Logical(Instance, width, i))
  {
    PaddedAssemblyLength(width, i);
    var path := EncodePadded(PaddedAssemblyPath(width, i));
    [0x10, |path| / 2] + path + data
  }

  /**
   * A client that pads a 16- or 32-bit assembly number, with its highest byte free, writes to the
   * assembly of 256 times that number, if there is one; the one it names keeps its data.
   */
  lemma PaddedWriteMisdirected(id: Identity, store: Store, width: Width, i: U32, data: seq<Byte>)
    requires width != W8 && TopFree(Logical(Instance, width, i))
    ensures SegmentFits(Logical(Instance, width, i))
    ensures AsWrite(PaddedWrite(width, i, data)) == Some(Access(0x100 * i, data))
    ensures var result := HandleCip(id, store, PaddedWrite(width, i, data));
            && result.Responding?
            && result.store == (if 0x100 * i in store then store[0x100 * i := data] else store)
            && (i in store && i != 0 ==> i in result.store && result.store[i] == store[i])
  {
    hide ParsePath, EncodePadded, Meaning, MisreadAll;
    var path := PaddedAssemblyPath(width, i);
    PaddedAssemblyLength(width, i);
    MisreadPath(path);
    assert MisreadAll(path) == PaddedAssemblyPath(width, 0x100 * i) by {
      MisreadAssemblyPath(width, i);
    }
    AssemblyPathMeans(width, 0x100 * i);
    var request, end := PaddedWrite(width, i, data), 2 + |EncodePadded(path)|;
    assert request[2..end] == EncodePadded(path) && request[end..] == data;
    StoreEffect(id, store, request);
  }

  lemma MisreadAssemblyPath(width: Width, i: U32)
    requires width != W8 && TopFree(Logical(Instance, width, i))
    ensures AllTopFree(PaddedAssemblyPath(width, i))
    ensures MisreadAll(PaddedAssemblyPath(width, i)) == PaddedAssemblyPath(width, 0x100 * i)
  {
  }
}
