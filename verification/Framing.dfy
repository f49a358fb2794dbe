/** Cutting a byte stream into frames, on values: what the reassembly loop of a connection has to
    come to, however the stream reaches it. */
module Framing {
  import opened GoTypes
  import opened Protocol

  /** What the front of a buffer is: too little, a frame, too much, or a length that cannot be sliced. */
  datatype Front = Need | Got(frame: Frame, rest: Str) | Oversized | Panics

  datatype End = More | TooBig | Crash

  /** All frames of a stream, what is left of it, and why there are no more. */
  datatype Parsed = Parsed(frames: seq<Frame>, rest: Str, end: End)

  function NextFrame(s: Str): (r: Front)
    ensures r.Got? ==> |r.rest| < |s|
  {
    if |s| < HEADER_SIZE then Need else
      var frameLen := Uint(s[..4]);
      if frameLen > HEADER_SIZE + MAX_PAYLOAD_SIZE then Oversized
      else if |s| < frameLen then Need
      else if frameLen < HEADER_SIZE then Panics
      else Got(Frame(frameLen, s[4], RequestID(s), s[HEADER_SIZE..frameLen]), s[frameLen..])
  }

  function ParseAll(s: Str): Parsed
    decreases |s|
  {
    match NextFrame(s)
    case Need => Parsed([], s, More)
    case Oversized => Parsed([], s, TooBig)
    case Panics => Parsed([], s, Crash)
    case Got(f, rest) => var p := ParseAll(rest); p.(frames := [f] + p.frames)
  }

  /** Once a front is decided, more bytes do not change it. */
  lemma FrontStable(a: Str, b: Str)
    requires !NextFrame(a).Need?
    ensures match NextFrame(a)
            case Got(f, rest) => NextFrame(a + b) == Got(f, rest + b)
            case front => NextFrame(a + b) == front
  {
    assert (a + b)[..4] == a[..4] && (a + b)[5..13] == a[5..13] && (a + b)[4] == a[4];
    match NextFrame(a)
    case Got(f, rest) =>
      assert (a + b)[HEADER_SIZE..f.length] == a[HEADER_SIZE..f.length];
      assert (a + b)[f.length..] == a[f.length..] + b;
    case _ =>
  }

  /** Parsing what has arrived and going on with its rest is parsing everything. */
  lemma {:induction false} ParseResumes(a: Str, b: Str)
    ensures var p := ParseAll(a);
            var q := ParseAll(p.rest + b);
            if p.end.More? then ParseAll(a + b) == q.(frames := p.frames + q.frames)
            else ParseAll(a + b).frames == p.frames && ParseAll(a + b).end == p.end
    decreases |a|
  {
    match NextFrame(a)
    case Need => assert [] + ParseAll(a + b).frames == ParseAll(a + b).frames;
    case Got(f, rest) =>
      FrontStable(a, b);
      ParseResumes(rest, b);
      var p := ParseAll(rest);
      var q := ParseAll(p.rest + b);
      assert [f] + (p.frames + q.frames) == ([f] + p.frames) + q.frames;
    case _ => FrontStable(a, b);
  }

  /** The rest of a stream that may go on is shorter than the largest frame. */
  lemma {:induction false} RestIsShort(s: Str)
    requires ParseAll(s).end.More?
    ensures |ParseAll(s).rest| < HEADER_SIZE + MAX_PAYLOAD_SIZE
    ensures NextFrame(ParseAll(s).rest).Need?
    decreases |s|
  {
    match NextFrame(s)
    case Got(f, rest) => RestIsShort(rest);
    case _ =>
  }

  // ---------- Against DecodeFrame ----------

  /** The connection and DecodeFrame read the front of a buffer alike, except that a length below
      the header size, which DecodeFrame accepts, makes the connection panic. */
  lemma FrontAgreesWithDecode(s: Str)
    requires |s| < 0x1_0000_0000
    ensures NextFrame(s).Need? <==> DecodeFrame(s).Incomplete?
    ensures NextFrame(s).Oversized? <==> DecodeFrame(s).TooLarge?
    ensures NextFrame(s).Got? <==> DecodeFrame(s).Decoded? && DecodeFrame(s).frame.length >= HEADER_SIZE
    ensures NextFrame(s).Panics? <==> DecodeFrame(s).Decoded? && DecodeFrame(s).frame.length < HEADER_SIZE
    ensures NextFrame(s).Got? ==> DecodeFrame(s).frame == NextFrame(s).frame
  {
    SmallMod(|s|, 0x1_0000_0000);
  }

  // ---------- Streams of encoded frames ----------

  ghost predicate Sendable(f: Frame) {
    |f.payload| <= MAX_PAYLOAD_SIZE && f == NewFrame(f.command, f.requestID, f.payload)
  }

  function Concat(parts: seq<Str>): Str {
    if parts == [] then [] else parts[0] + Concat(parts[1..])
  }

  function Encodings(frames: seq<Frame>): seq<Str> {
    seq(|frames|, i requires 0 <= i < |frames| => FrameBytes(frames[i]))
  }

  lemma EncodedFront(f: Frame, more: Str)
    requires Sendable(f)
    ensures NextFrame(FrameBytes(f) + more) == Got(f, more)
  {
    HeaderFields(f, more);
    SmallMod(HEADER_SIZE + |f.payload|, 0x1_0000_0000);
    assert (FrameBytes(f) + more)[HEADER_SIZE + |f.payload|..] == more;
  }

  /** A part of an encoded frame is not yet a frame. */
  lemma CutFront(f: Frame, n: nat)
    requires Sendable(f) && n < |FrameBytes(f)|
    ensures NextFrame(FrameBytes(f)[..n]).Need?
  {
    var s := FrameBytes(f)[..n];
    assert FrameBytes(f) + [] == FrameBytes(f);
    HeaderFields(f, []);
    SmallMod(HEADER_SIZE + |f.payload|, 0x1_0000_0000);
    if n >= HEADER_SIZE {
      assert s[..4] == FrameBytes(f)[..4];
    }
  }

  /** Whatever follows encoded frames, those are cut off first and it is parsed on its own. */
  lemma {:induction false} FramesComeFirst(frames: seq<Frame>, more: Str)
    requires forall f :: f in frames ==> Sendable(f)
    ensures var p := ParseAll(more); ParseAll(Concat(Encodings(frames)) + more) == p.(frames := frames + p.frames)
  {
    hide FrameBytes, NextFrame, Sendable, ParseAll;
    var p := ParseAll(more);
    if frames == [] {
      assert Concat(Encodings(frames)) + more == more;
      assert frames + p.frames == p.frames;
    } else {
      var f, tail := frames[0], frames[1..];
      FramesComeFirst(tail, more);
      assert Encodings(frames)[1..] == Encodings(tail);
      var rest := Concat(Encodings(tail)) + more;
      assert Concat(Encodings(frames)) + more == FrameBytes(f) + rest;
      EncodedFront(f, rest);
      ParseFront(FrameBytes(f) + rest);
      assert [f] + (tail + p.frames) == frames + p.frames;
    }
  }

  lemma ParseFront(s: Str)
    requires NextFrame(s).Got?
    ensures var r := NextFrame(s);
            var p := ParseAll(r.rest);
            ParseAll(s) == p.(frames := [r.frame] + p.frames)
  {
  }

  /** A stream of encoded frames, cut off inside a last one, parses to exactly those frames. */
  lemma ParseOfEncodings(frames: seq<Frame>, last: Frame, n: nat)
    requires (forall f :: f in frames ==> Sendable(f)) && Sendable(last) && n < |FrameBytes(last)|
    ensures ParseAll(Concat(Encodings(frames)) + FrameBytes(last)[..n]) == Parsed(frames, FrameBytes(last)[..n], More)
  {
    FramesComeFirst(frames, FrameBytes(last)[..n]);
    CutFront(last, n);
    assert frames + [] == frames;
  }

  /** Behind any frames, the connection panics on the next bytes exactly if they are a header whose
      length field counts less than the header. */
  lemma CrashIff(frames: seq<Frame>, more: Str)
    requires forall f :: f in frames ==> Sendable(f)
    ensures ParseAll(Concat(Encodings(frames)) + more) == Parsed(frames, more, Crash) <==>
            |more| >= HEADER_SIZE && Uint(more[..4]) < HEADER_SIZE
  {
    hide FrameBytes, Sendable, Uint, ParseAll, NextFrame;
    FramesComeFirst(frames, more);
    CrashAtOnceIff(more);
    var p := ParseAll(more);
    assert |frames + p.frames| == |frames| + |p.frames|;
    assert p.frames == [] ==> frames + p.frames == frames;
  }

  /** And it gives up on them exactly if they are a header whose length field counts more than the
      largest frame. */
  lemma TooBigIff(frames: seq<Frame>, more: Str)
    requires forall f :: f in frames ==> Sendable(f)
    ensures ParseAll(Concat(Encodings(frames)) + more) == Parsed(frames, more, TooBig) <==>
            |more| >= HEADER_SIZE && Uint(more[..4]) > HEADER_SIZE + MAX_PAYLOAD_SIZE
  {
    hide FrameBytes, Sendable, Uint, ParseAll, NextFrame;
    FramesComeFirst(frames, more);
    TooBigAtOnceIff(more);
    var p := ParseAll(more);
    assert |frames + p.frames| == |frames| + |p.frames|;
    assert p.frames == [] ==> frames + p.frames == frames;
  }

  lemma TooBigAtOnceIff(s: Str)
    ensures ParseAll(s) == Parsed([], s, TooBig) <==>
            |s| >= HEADER_SIZE && Uint(s[..4]) > HEADER_SIZE + MAX_PAYLOAD_SIZE
  {
    hide Uint;
  }

  lemma CrashAtOnceIff(s: Str)
    ensures ParseAll(s) == Parsed([], s, Crash) <==> |s| >= HEADER_SIZE && Uint(s[..4]) < HEADER_SIZE
  {
    hide Uint;
  }

  /** Thirteen zero bytes: DecodeFrame reads a frame, the connection panics. */
  lemma ZerosCrash()
    ensures var s: Str := seq(HEADER_SIZE, _ => 0);
            ParseAll(s) == Parsed([], s, Crash) && DecodeFrame(s) == Decoded(Frame(0, 0, 0, []))
  {
    var s: Str := seq(HEADER_SIZE, _ => 0);
    UintOfZeros(4);
    UintOfZeros(8);
    assert s[..4] == seq(4, _ => 0) && s[5..13] == seq(8, _ => 0);
  }

  lemma {:induction false} UintOfZeros(n: nat)
    ensures Uint(seq(n, _ => 0)) == 0
  {
    if n > 0 {
      UintOfZeros(n - 1);
      assert seq<Byte>(n, _ => 0)[..n - 1] == seq<Byte>(n - 1, _ => 0);
    }
  }

  lemma {:induction false} ConcatSnoc(parts: seq<Str>, part: Str)
    ensures Concat(parts + [part]) == Concat(parts) + part
  {
    if parts == [] {
      assert parts + [part] == [part];
    } else {
      ConcatSnoc(parts[1..], part);
      assert (parts + [part])[1..] == parts[1..] + [part];
    }
  }

  lemma {:induction false} ConcatAppend(a: seq<Str>, b: seq<Str>)
    ensures Concat(a + b) == Concat(a) + Concat(b)
  {
    if a == [] {
      assert a + b == b;
    } else {
      ConcatAppend(a[1..], b);
      assert (a + b)[1..] == a[1..] + b && (a + b)[0] == a[0];
      assert (a[0] + Concat(a[1..])) + Concat(b) == a[0] + (Concat(a[1..]) + Concat(b));
    }
  }
}
