/**
 * The EtherNet/IP encapsulation layer: a 24-byte header "<HHII8sI" followed by a
 * payload, and the stream of such frames a TCP connection carries.
 */
module EnipFrames {
  import opened Bytes

  const HEADER_SIZE := 24

  /** A frame as the server keeps it; the header's status word is dropped. */
  datatype Frame = Frame(command: U16, session: U32, context: seq<Byte>, options: U32, payload: seq<Byte>)

  /** The frames that a header can describe. */
  predicate Fits(f: Frame) {
    |f.context| == 8 && |f.payload| < 0x1_0000
  }

  type FitFrame = f: Frame | Fits(f) witness Frame(0, 0, [0, 0, 0, 0, 0, 0, 0, 0], 0, [])

  /** Whether the buffer starts with a whole frame. */
  predicate Complete(buffer: seq<Byte>) {
    |buffer| >= HEADER_SIZE && |buffer| >= HEADER_SIZE + UnpackU16Le(buffer, 2)
  }

  function FirstSize(buffer: seq<Byte>): nat
    requires Complete(buffer)
  {
    HEADER_SIZE + UnpackU16Le(buffer, 2)
  }

  function FirstFrame(buffer: seq<Byte>): (f: Frame)
    requires Complete(buffer)
    ensures Fits(f)
  {
    Frame(UnpackU16Le(buffer, 0), UnpackU32Le(buffer, 4), buffer[12..20], UnpackU32Le(buffer, 20),
          buffer[HEADER_SIZE..FirstSize(buffer)])
  }

  /** Taking a frame off the buffer shrinks it by at least the header. */
  function AfterFirst(buffer: seq<Byte>): (rest: seq<Byte>)
    requires Complete(buffer)
    ensures |rest| + HEADER_SIZE <= |buffer|
  {
    buffer[FirstSize(buffer)..]
  }

  datatype Parsed = Parsed(frames: seq<Frame>, rest: seq<Byte>)

  /** The one-shot reading of a whole byte stream. */
  function ParseFrames(stream: seq<Byte>): Parsed
    decreases |stream|
  {
    if !Complete(stream) then Parsed([], stream)
    else
      var tail := ParseFrames(AfterFirst(stream));
      Parsed([FirstFrame(stream)] + tail.frames, tail.rest)
  }

  function EncodeHeader(f: Frame, status: U32): seq<Byte>
    requires Fits(f)
  {
    PackU16Le(f.command) + PackU16Le(|f.payload|) + PackU32Le(f.session) + PackU32Le(status)
    + f.context + PackU32Le(f.options)
  }

  function EncodeFrame(f: Frame, status: U32): seq<Byte>
    requires Fits(f)
  {
    EncodeHeader(f, status) + f.payload
  }

  /** A frame together with the status word its header carries on the wire. */
  datatype WireFrame = WireFrame(frame: Frame, status: U32)

  predicate AllFit(ws: seq<WireFrame>) {
    forall i :: 0 <= i < |ws| ==> Fits(ws[i].frame)
  }

  function EncodeFrames(ws: seq<WireFrame>): seq<Byte>
    requires AllFit(ws)
  {
    if ws == [] then [] else EncodeFrame(ws[0].frame, ws[0].status) + EncodeFrames(ws[1..])
  }

  function Bare(ws: seq<WireFrame>): seq<Frame> {
    seq(|ws|, i requires 0 <= i < |ws| => ws[i].frame)
  }

  /** An encoded frame is the first frame of any stream it starts. */
  lemma EncodedFirst(f: Frame, status: U32, rest: seq<Byte>)
    requires Fits(f)
    ensures var s := EncodeFrame(f, status) + rest;
            Complete(s) && FirstFrame(s) == f && AfterFirst(s) == rest
  {
  }

  lemma {:induction false} ParseEncoded(ws: seq<WireFrame>, rest: seq<Byte>)
    requires AllFit(ws) && !Complete(rest)
    ensures ParseFrames(EncodeFrames(ws) + rest) == Parsed(Bare(ws), rest)
  {
    hide Complete, FirstFrame, AfterFirst, EncodeFrame;
    if ws == [] {
      assert EncodeFrames(ws) + rest == rest;
    } else {
      var tail := EncodeFrames(ws[1..]) + rest;
      assert EncodeFrames(ws) + rest == EncodeFrame(ws[0].frame, ws[0].status) + tail;
      EncodedFirst(ws[0].frame, ws[0].status, tail);
      ParseEncoded(ws[1..], rest);
      assert Bare(ws) == [ws[0].frame] + Bare(ws[1..]);
    }
  }

  /** The first frame's own bytes, rebuilt with the status word of its header. */
  lemma FirstReencodes(stream: seq<Byte>) returns (status: U32)
    requires Complete(stream)
    ensures EncodeFrame(FirstFrame(stream), status) + AfterFirst(stream) == stream
  {
    status := UnpackU32Le(stream, 8);
    PackOfUnpackU16Le(stream, 0);
    PackOfUnpackU16Le(stream, 2);
    PackOfUnpackU32Le(stream, 4);
    PackOfUnpackU32Le(stream, 8);
    PackOfUnpackU32Le(stream, 20);
    hide UnpackU16Le, UnpackU32Le, PackU16Le, PackU32Le;
    assert EncodeHeader(FirstFrame(stream), status) == stream[..24];
  }

  /** Whatever the parser consumed re-encodes to the stream: no byte is lost or invented. */
  lemma {:induction false} ParseReconstructs(stream: seq<Byte>) returns (ws: seq<WireFrame>)
    ensures AllFit(ws) && Bare(ws) == ParseFrames(stream).frames
    ensures stream == EncodeFrames(ws) + ParseFrames(stream).rest
    ensures !Complete(ParseFrames(stream).rest)
    decreases |stream|
  {
    hide Complete, FirstFrame, AfterFirst, EncodeFrame;
    if !Complete(stream) {
      ws := [];
    } else {
      var tail := ParseReconstructs(AfterFirst(stream));
      var status := FirstReencodes(stream);
      var w := WireFrame(FirstFrame(stream), status);
      ws := [w] + tail;
      assert ws[1..] == tail;
      assert Bare(ws) == [w.frame] + Bare(tail);
    }
  }

  /**
   * The stream grammar: `fs` and `rest` are the parse of `stream` exactly when the stream is an
   * encoding of `fs`, with some status words, followed by a `rest` that holds no whole frame.
   */
  lemma ParseExactly(stream: seq<Byte>, fs: seq<Frame>, rest: seq<Byte>)
    ensures ParseFrames(stream) == Parsed(fs, rest)
            <==> !Complete(rest)
                 && exists ws :: AllFit(ws) && Bare(ws) == fs && stream == EncodeFrames(ws) + rest
  {
    if ParseFrames(stream) == Parsed(fs, rest) {
      var ws := ParseReconstructs(stream);
    }
    if !Complete(rest) && exists ws :: AllFit(ws) && Bare(ws) == fs && stream == EncodeFrames(ws) + rest {
      var ws :| AllFit(ws) && Bare(ws) == fs && stream == EncodeFrames(ws) + rest;
      ParseEncoded(ws, rest);
    }
  }

  /** More bytes behind a whole frame do not change it. */
  lemma FirstStable(a: seq<Byte>, b: seq<Byte>)
    requires Complete(a)
    ensures Complete(a + b) && FirstFrame(a + b) == FirstFrame(a)
    ensures AfterFirst(a + b) == AfterFirst(a) + b
  {
  }

  /** Parsing may be resumed from the leftover of an earlier parse. */
  lemma {:induction false} ParseResumes(a: seq<Byte>, b: seq<Byte>)
    ensures var first := ParseFrames(a);
            var second := ParseFrames(first.rest + b);
            ParseFrames(a + b) == Parsed(first.frames + second.frames, second.rest)
    decreases |a|
  {
    hide Complete, FirstFrame, AfterFirst;
    if Complete(a) {
      FirstStable(a, b);
      ParseResumes(AfterFirst(a), b);
      assert ParseFrames(a).frames == [FirstFrame(a)] + ParseFrames(AfterFirst(a)).frames;
      assert ParseFrames(a + b).frames == [FirstFrame(a)] + ParseFrames(AfterFirst(a) + b).frames;
    }
  }
}
