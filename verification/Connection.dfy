/** One connection: the loop that reads chunks into a growing buffer, hands every complete frame to
    the handler as a view of that buffer, and gives the buffer back to the pool. */
module Connections {
  import opened GoTypes
  import opened Protocol
  import opened Framing

  const MAX_CONNECTION_BUFFER := 0x110_0000  // 17 << 20
  const READ_CHUNK_SIZE := 0x1_0000          // 64 << 10

  /** A byte slice: data[lo..hi], with room to grow up to the end of data. */
  datatype Window = Window(data: array<Byte>, lo: nat, hi: nat) {
    ghost predicate Valid() {
      lo <= hi <= data.Length
    }

    function Bytes(): Str
      requires Valid()
      reads data
    {
      data[lo..hi]
    }
  }

  /** append(w, s...): in place behind the end while there is room, else in a new array. */
  method Append(w: Window, s: Str) returns (r: Window)
    requires w.Valid()
    modifies w.data
    ensures r.Valid() && r.Bytes() == old(w.Bytes()) + s
    ensures r.data == w.data <==> w.hi + |s| <= w.data.Length
    ensures r.data == w.data ==> r.lo == w.lo && w.data[..] == old(w.data[..w.hi]) + s + old(w.data[w.hi + |s|..])
    ensures r.data != w.data ==> fresh(r.data) && w.data[..] == old(w.data[..])
  {
    var n := w.hi - w.lo;
    if w.hi + |s| <= w.data.Length {
      forall i | 0 <= i < |s| {
        w.data[w.hi + i] := s[i];
      }
      r := Window(w.data, w.lo, w.hi + |s|);
    } else {
      var data := new Byte[2 * (n + |s|)](i requires 0 <= i reads w.data =>
        if i < n && w.lo + i < w.data.Length then w.data[w.lo + i] else if 0 <= i - n < |s| then s[i - n] else 0);
      r := Window(data, 0, n + |s|);
    }
  }

  /** A frame as the handler got it. Its payload is data[lo..hi], not a copy; keys that the store
      keeps are such views too. */
  datatype Handled = Handled(frame: Frame, data: array<Byte>, lo: nat, hi: nat) {
    /** The bytes are still those that were handed over. */
    ghost predicate Intact()
      reads data
    {
      lo <= hi <= data.Length && data[lo..hi] == frame.payload
    }
  }

  function Frames(log: seq<Handled>): (fs: seq<Frame>)
    ensures |fs| == |log|
  {
    seq(|log|, i requires 0 <= i < |log| => log[i].frame)
  }

  /** Appending to w or to what the pool will make of it cannot reach these payloads. */
  ghost predicate Behind(log: seq<Handled>, w: Window) {
    forall h :: h in log && h.data == w.data ==> h.hi <= w.lo
  }

  ghost predicate AllIntact(log: seq<Handled>)
    reads set i | 0 <= i < |log| :: log[i].data
  {
    forall i :: 0 <= i < |log| ==> log[i].Intact()
  }

  datatype Outcome = Closed | Overflow | OversizedFrame | Panicked | WriteFailed

  /** The log grows by frames of this buffer only, and everything in it is as it was handed over. */
  ghost predicate LogGrew(sent: seq<Handled>, log: seq<Handled>, data: array<Byte>)
    reads set i | 0 <= i < |log| :: log[i].data
  {
    && sent <= log && AllIntact(log)
    && forall h :: h in log ==> h in sent || h.data == data
  }

  /** The inner loop: hands over the frames that are complete. failAt is the number of the first
      response whose write fails. Nothing is written. */
  method HandleBuffered(w: Window, sent: seq<Handled>, failAt: Option<nat>, ghost earlier: seq<Handled>)
    returns (r: Window, log: seq<Handled>, stop: Option<Outcome>)
    requires w.Valid() && AllIntact(sent) && Behind(sent, w) && AllIntact(earlier)
    requires failAt.Some? ==> |sent| <= failAt.value
    ensures r.Valid() && r.data == w.data && w.lo <= r.lo && r.hi == w.hi
    ensures LogGrew(sent, log, w.data) && AllIntact(earlier)
    ensures var p := ParseAll(w.Bytes());
            if stop == Some(WriteFailed) then
              failAt.Some? && |log| == failAt.value + 1 && Overwritable(log, r) && Behind(log[..|log| - 1], r) &&
                Frames(log) <= Frames(sent) + p.frames
            else
              Behind(log, r) && (failAt.Some? ==> |log| <= failAt.value) &&
              Frames(log) == Frames(sent) + p.frames && r.Bytes() == p.rest && stop == StopOf(p.end)
  {
    hide ParseAll, NextFrame, LogGrew, AllIntact, Behind, View, FrameLength, ParsedAfter, Handled.Intact,
      Window.Bytes, Advance;
    r, log, stop := w, sent, None;
    ghost var whole := w.Bytes();
    ghost var done: seq<Frame> := [];
    LogStart(sent, w.data);
    StartOf(whole);
    while true
      invariant r.Valid() && r.data == w.data && w.lo <= r.lo && r.hi == w.hi
      invariant LogGrew(sent, log, w.data) && Behind(log, r) && AllIntact(earlier)
      invariant Frames(log) == Frames(sent) + done
      invariant failAt.Some? ==> |log| <= failAt.value
      invariant ParseAll(whole) == ParsedAfter(done, r.Bytes())
      decreases r.hi - r.lo
    {
      NoFrame(done, r.Bytes());
      AdvanceBytes(r, 0);
      if r.hi - r.lo < HEADER_SIZE {
        break;
      }
      FrameLengthExact(r);
      var frameLen := FrameLength(r);
      if frameLen > HEADER_SIZE + MAX_PAYLOAD_SIZE {
        stop := Some(OversizedFrame);
        return;
      }
      if r.hi - r.lo < frameLen {
        break;
      }
      if frameLen < HEADER_SIZE {
        stop := Some(Panicked);
        return;
      }
      var h := View(r, frameLen);
      ViewExact(r, frameLen);
      OneMore(done, r.Bytes(), h.frame, r.Bytes()[frameLen..]);
      ghost var before := log;
      LogNext(sent, log, h, w.data);
      BehindNext(log, r, h, frameLen);
      FramesSnoc(log, h);
      log := log + [h];
      assert log[..|log| - 1] == before;
      done := done + [h.frame];
      if failAt == Some(|log| - 1) {
        stop := Some(WriteFailed);
        return;
      }
      AdvanceBytes(r, frameLen);
      r := Advance(r, frameLen);
    }
  }

  function StopOf(end: End): Option<Outcome> {
    match end
    case More => None
    case TooBig => Some(OversizedFrame)
    case Crash => Some(Panicked)
  }

  function ParsedAfter(done: seq<Frame>, s: Str): Parsed {
    var p := ParseAll(s);
    p.(frames := done + p.frames)
  }

  lemma LogStart(sent: seq<Handled>, data: array<Byte>)
    requires AllIntact(sent)
    ensures LogGrew(sent, sent, data)
  {
  }

  lemma LogNext(sent: seq<Handled>, log: seq<Handled>, h: Handled, data: array<Byte>)
    requires LogGrew(sent, log, data) && h.Intact() && h.data == data
    ensures LogGrew(sent, log + [h], data)
  {
  }

  lemma BehindNext(log: seq<Handled>, w: Window, h: Handled, n: nat)
    requires Behind(log, w) && h.hi == w.lo + n && w.lo + n <= w.hi
    ensures Behind(log + [h], Window(w.data, w.lo + n, w.hi))
  {
  }

  lemma StartOf(s: Str)
    ensures ParseAll(s) == ParsedAfter([], s)
  {
    assert [] + ParseAll(s).frames == ParseAll(s).frames;
  }

  /** The front of the buffer when it is not a frame. */
  lemma NoFrame(done: seq<Frame>, s: Str)
    ensures |s| < HEADER_SIZE ==> ParsedAfter(done, s) == Parsed(done, s, More)
    ensures |s| >= HEADER_SIZE ==>
              var n := Uint(s[..4]);
              (n > HEADER_SIZE + MAX_PAYLOAD_SIZE ==> ParsedAfter(done, s) == Parsed(done, s, TooBig)) &&
              (|s| < n <= HEADER_SIZE + MAX_PAYLOAD_SIZE ==> ParsedAfter(done, s) == Parsed(done, s, More)) &&
              (n < HEADER_SIZE ==> ParsedAfter(done, s) == Parsed(done, s, Crash))
  {
    assert done + [] == done;
  }

  lemma OneMore(done: seq<Frame>, s: Str, f: Frame, rest: Str)
    requires NextFrame(s) == Got(f, rest)
    ensures ParsedAfter(done, s) == ParsedAfter(done + [f], rest)
    ensures done + [f] <= ParsedAfter(done, s).frames
  {
    assert done + ([f] + ParseAll(rest).frames) == (done + [f]) + ParseAll(rest).frames;
  }

  /** int(binaryBEUint32(buf[0:4])) */
  function FrameLength(w: Window): nat
    requires w.Valid() && w.hi - w.lo >= HEADER_SIZE
    reads w.data
  {
    BinaryBEUint32(w.data[w.lo..w.lo + 4])
  }

  lemma FrameLengthExact(w: Window)
    requires w.Valid() && w.hi - w.lo >= HEADER_SIZE
    ensures |w.Bytes()| == w.hi - w.lo && FrameLength(w) == Uint(w.Bytes()[..4])
  {
    BinaryBEUint32Exact(w.data[w.lo..w.lo + 4]);
    SliceOfSlice(w.data[..], w.lo, w.hi, 0, 4);
    assert w.data[w.lo..w.lo + 4] == w.data[..][w.lo..w.lo + 4] && w.Bytes() == w.data[..][w.lo..w.hi];
  }

  /** The frame at the front of the window, its payload a view of the same bytes. */
  function View(w: Window, frameLen: nat): Handled
    requires w.Valid() && HEADER_SIZE <= frameLen <= w.hi - w.lo
    reads w.data
  {
    BinaryBEUint64Exact(w.data[w.lo + 5..w.lo + 13]);
    var f := Frame(frameLen, w.data[w.lo + 4], BinaryBEUint64(w.data[w.lo + 5..w.lo + 13]),
        w.data[w.lo + HEADER_SIZE..w.lo + frameLen]);
    Handled(f, w.data, w.lo + HEADER_SIZE, w.lo + frameLen)
  }

  lemma ViewExact(w: Window, frameLen: nat)
    requires w.Valid() && HEADER_SIZE <= frameLen <= w.hi - w.lo && frameLen == Uint(w.Bytes()[..4])
    requires frameLen <= HEADER_SIZE + MAX_PAYLOAD_SIZE
    ensures NextFrame(w.Bytes()) == Got(View(w, frameLen).frame, w.Bytes()[frameLen..])
    ensures var h := View(w, frameLen);
            |w.Bytes()| == w.hi - w.lo && h.Intact() && h.data == w.data && h.lo == w.lo + HEADER_SIZE &&
              h.hi == w.lo + frameLen
  {
    var s := w.data[..];
    assert w.Bytes() == s[w.lo..w.hi];
    SliceOfSlice(s, w.lo, w.hi, 5, 13);
    SliceOfSlice(s, w.lo, w.hi, HEADER_SIZE, frameLen);
    assert w.data[w.lo + 5..w.lo + 13] == s[w.lo + 5..w.lo + 13];
    assert w.data[w.lo + HEADER_SIZE..w.lo + frameLen] == s[w.lo + HEADER_SIZE..w.lo + frameLen];
    BinaryBEUint64Exact(w.data[w.lo + 5..w.lo + 13]);
  }

  /** buf = buf[n:] */
  function Advance(w: Window, n: nat): Window
    requires w.Valid() && n <= w.hi - w.lo
  {
    Window(w.data, w.lo + n, w.hi)
  }

  lemma AdvanceBytes(w: Window, n: nat)
    requires w.Valid() && n <= w.hi - w.lo
    ensures var r := Advance(w, n);
            r == Window(w.data, w.lo + n, w.hi) && |w.Bytes()| == w.hi - w.lo && r.Bytes() == w.Bytes()[n..]
  {
  }

  /** Appending keeps every payload handed over so far, in this buffer or another. */
  method Grow(w: Window, s: Str, ghost log: seq<Handled>) returns (r: Window)
    requires w.Valid() && AllIntact(log) && Behind(log, w)
    modifies w.data
    ensures r.Valid() && r.Bytes() == old(w.Bytes()) + s
    ensures r.data == w.data || fresh(r.data)
    ensures AllIntact(log) && Behind(log, r)
  {
    r := Append(w, s);
    forall i | 0 <= i < |log|
      ensures log[i].Intact()
    {
      var h := log[i];
      assert old(h.Intact());
      if h.data == w.data {
        SameSlice(old(w.data[..]), w.data[..], w.hi, h.lo, h.hi);
      }
    }
  }

  lemma SameSlice(s: Str, t: Str, hi: nat, a: nat, b: nat)
    requires hi <= |s| == |t| && s[..hi] == t[..hi] && a <= b <= hi
    ensures s[a..b] == t[a..b]
  {
    SliceOfSlice(s, 0, hi, a, b);
    SliceOfSlice(t, 0, hi, a, b);
  }

  /** The whole connection. chunks are what the reads return until the peer closes; earlier are the
      frames that other connections were handed while they had this buffer from the pool. */
  method HandleConn(pooled: Window, chunks: seq<Str>, failAt: Option<nat>, ghost earlier: seq<Handled>)
    returns (back: Window, log: seq<Handled>, outcome: Outcome)
    requires pooled.Valid() && pooled.lo == pooled.hi
    requires forall c :: c in chunks ==> |c| <= READ_CHUNK_SIZE
    requires AllIntact(earlier) && Behind(earlier, pooled)
    modifies pooled.data
    ensures back.Valid() && back.lo == back.hi && (back.data == pooled.data || fresh(back.data))
    ensures AllIntact(earlier + log)
    ensures var p := ParseAll(Concat(chunks));
            if outcome == WriteFailed then
              failAt.Some? && |log| == failAt.value + 1 && Frames(log) <= p.frames &&
              Overwritable(log, back) && Behind(earlier + log[..|log| - 1], back)
            else
              Frames(log) == p.frames && outcome == OutcomeOf(p.end) && Behind(earlier + log, back) &&
              (failAt.Some? ==> |log| <= failAt.value)
  {
    hide ParseAll, LogGrew, Behind, Overwritable, AllIntact, Concat, Frames, NextFrame, Handled.Intact, Window.Bytes;
    var buf := pooled;
    NothingBehind(pooled);
    log := [];
    Untouched(earlier, pooled);
    ParseNothing();
    AdvanceBytes(pooled, 0);
    var i := 0;
    while i < |chunks|
      invariant 0 <= i <= |chunks| && buf.Valid() && (buf.data == pooled.data || fresh(buf.data))
      invariant AllIntact(earlier + log) && Behind(earlier + log, buf)
      invariant failAt.Some? ==> |log| <= failAt.value
      invariant ParseAll(Concat(chunks[..i])) == Parsed(Frames(log), buf.Bytes(), More)
    {
      var tmp := chunks[i];
      ghost var read := Concat(chunks[..i]);
      RestIsShort(read);
      AdvanceBytes(buf, 0);
      if buf.hi - buf.lo + |tmp| > MAX_CONNECTION_BUFFER {
        outcome := Overflow;
        assert false;
      }
      buf := Grow(buf, tmp, earlier + log);
      Resumed(chunks, i, Frames(log), buf.Bytes());
      ghost var before := log;
      var stop;
      ghost var grown := buf;
      BothParts(earlier, log, grown);
      buf, log, stop := HandleBuffered(buf, log, failAt, earlier);
      BothGrew(earlier, before, log, grown, buf);
      i := i + 1;
      Whole(chunks, i);
      if stop.Some? {
        back, outcome := Window(buf.data, buf.lo, buf.lo), stop.value;
        Rewound(log, if stop == Some(WriteFailed) then earlier + log[..|log| - 1] else earlier + log, buf);
        return;
      }
    }
    Rewound(log, earlier + log, buf);
    assert chunks[..|chunks|] == chunks;
    back := Window(buf.data, buf.lo, buf.lo);
    outcome := Closed;
  }

  function OutcomeOf(end: End): Outcome {
    match StopOf(end)
    case None => Closed
    case Some(o) => o
  }

  lemma ParseNothing()
    ensures ParseAll(Concat([])) == Parsed([], [], More)
  {
  }

  lemma Untouched(earlier: seq<Handled>, w: Window)
    requires AllIntact(earlier) && Behind(earlier, w)
    ensures AllIntact(earlier + []) && Behind(earlier + [], w)
  {
    assert earlier + [] == earlier;
  }

  /** What the next chunk makes of the parse. */
  lemma Resumed(chunks: seq<Str>, i: nat, frames: seq<Frame>, bytes: Str)
    requires i < |chunks|
    requires var p := ParseAll(Concat(chunks[..i])); p.frames == frames && p.end.More? && bytes == p.rest + chunks[i]
    ensures var q := ParseAll(bytes); ParseAll(Concat(chunks[..i + 1])) == q.(frames := frames + q.frames)
  {
    ConcatSnoc(chunks[..i], chunks[i]);
    assert chunks[..i + 1] == chunks[..i] + [chunks[i]];
    ParseResumes(Concat(chunks[..i]), chunks[i]);
  }

  /** A connection that stops before the end of its input has handed over all that the input holds. */
  lemma Whole(chunks: seq<Str>, i: nat)
    requires i <= |chunks|
    ensures var p, all := ParseAll(Concat(chunks[..i])), ParseAll(Concat(chunks));
            p.frames <= all.frames && (!p.end.More? ==> p.frames == all.frames && p.end == all.end)
  {
    ConcatAppend(chunks[..i], chunks[i..]);
    assert chunks == chunks[..i] + chunks[i..];
    ParseResumes(Concat(chunks[..i]), Concat(chunks[i..]));
  }

  lemma BothParts(earlier: seq<Handled>, log: seq<Handled>, w: Window)
    requires AllIntact(earlier + log) && Behind(earlier + log, w)
    ensures AllIntact(earlier) && Behind(earlier, w) && AllIntact(log) && Behind(log, w)
  {
    var both := earlier + log;
    assert forall i :: 0 <= i < |earlier| ==> both[i] == earlier[i];
    assert forall i :: 0 <= i < |log| ==> both[|earlier| + i] == log[i];
  }

  /** What HandleBuffered has done to all frames, those of earlier connections included. */
  lemma BothGrew(earlier: seq<Handled>, before: seq<Handled>, log: seq<Handled>, w: Window, r: Window)
    requires AllIntact(earlier) && LogGrew(before, log, w.data)
    requires w.data == r.data && w.lo <= r.lo && Behind(earlier, w)
    ensures AllIntact(earlier + log)
    ensures Behind(log, r) ==> Behind(earlier + log, r)
    ensures |log| > 0 && Behind(log[..|log| - 1], r) ==> Behind(earlier + log[..|log| - 1], r)
  {
  }

  /** *bufPtr = buf[:0] keeps the start. */
  lemma Rewound(log: seq<Handled>, both: seq<Handled>, w: Window)
    ensures var v := Window(w.data, w.lo, w.lo);
            (Overwritable(log, w) ==> Overwritable(log, v)) && (Behind(both, w) ==> Behind(both, v))
  {
  }

  /** The frames of a row of connections. */
  function FramesOf(conns: seq<seq<Str>>): seq<Frame> {
    if conns == [] then [] else
      FramesOf(conns[..|conns| - 1]) + ParseAll(Concat(conns[|conns| - 1])).frames
  }

  lemma FramesAppend(a: seq<Handled>, b: seq<Handled>)
    ensures Frames(a + b) == Frames(a) + Frames(b)
  {
  }

  lemma NothingBehind(w: Window)
    ensures Behind([], w) && AllIntact([]) && Frames([]) == []
  {
  }

  /** One buffer of the pool through any number of connections whose writes all succeed: every
      payload ever handed over still holds its bytes at the end, so the keys that view them do. */
  method ServeAll(pooled: Window, conns: seq<seq<Str>>) returns (back: Window, log: seq<Handled>)
    requires pooled.Valid() && pooled.lo == pooled.hi
    requires forall chunks, c :: chunks in conns && c in chunks ==> |c| <= READ_CHUNK_SIZE
    modifies pooled.data
    ensures AllIntact(log) && Frames(log) == FramesOf(conns)
  {
    hide ParseAll, LogGrew, Overwritable, Concat, Behind, AllIntact, Frames;
    back, log := pooled, [];
    NothingBehind(back);
    var i := 0;
    while i < |conns|
      invariant 0 <= i <= |conns| && back.Valid() && back.lo == back.hi &&
              (back.data == pooled.data || fresh(back.data))
      invariant AllIntact(log) && Behind(log, back) && Frames(log) == FramesOf(conns[..i])
    {
      var more, outcome;
      back, more, outcome := HandleConn(back, conns[i], None, log);
      assert conns[..i + 1][..i] == conns[..i];
      FramesAppend(log, more);
      log := log + more;
      i := i + 1;
    }
    assert conns[..|conns|] == conns;
  }

  lemma SliceOfSlice(s: Str, lo: nat, hi: nat, a: nat, b: nat)
    requires lo <= hi <= |s| && a <= b <= hi - lo
    ensures s[lo..hi][a..b] == s[lo + a..lo + b]
  {
    var x, y := s[lo..hi][a..b], s[lo + a..lo + b];
    forall i | 0 <= i < |x|
      ensures x[i] == y[i]
    {
    }
  }

  /** Every byte of the payload that `s` reaches, written where its header starts, is the same in `s`. */
  ghost predicate Repeats(s: Str, payload: Str) {
    forall j :: 0 <= j < |payload| && HEADER_SIZE + j < |s| ==> s[HEADER_SIZE + j] == payload[j]
  }

  /** How a connection ends whose writes succeed and whose input is a row of encoded frames and something
      more: by its peer if that is an incomplete frame, for its size if it is a header that counts too
      much, in a panic if it is one that counts too little. The frames are handed over in each case. */
  method Ends(pooled: Window, chunks: seq<Str>, ghost frames: seq<Frame>, ghost more: Str)
    returns (back: Window, log: seq<Handled>, outcome: Outcome)
    requires pooled.Valid() && pooled.lo == pooled.hi
    requires forall c :: c in chunks ==> |c| <= READ_CHUNK_SIZE
    requires (forall f :: f in frames ==> Sendable(f)) && Concat(chunks) == Concat(Encodings(frames)) + more
    modifies pooled.data
    ensures |more| < HEADER_SIZE ==> outcome == Closed && Frames(log) == frames
    ensures |more| >= HEADER_SIZE ==>
              var n := Uint(more[..4]);
              (|more| < n <= HEADER_SIZE + MAX_PAYLOAD_SIZE ==> outcome == Closed && Frames(log) == frames) &&
              (n > HEADER_SIZE + MAX_PAYLOAD_SIZE ==> outcome == OversizedFrame && Frames(log) == frames) &&
              (n < HEADER_SIZE ==> outcome == Panicked && Frames(log) == frames)
  {
    hide ParseAll, LogGrew, Overwritable, Behind, AllIntact, Concat, Encodings, Sendable, Frames, Uint;
    NothingBehind(pooled);
    TooBigIff(frames, more);
    CrashIff(frames, more);
    MoreIfShort(frames, more);
    back, log, outcome := HandleConn(pooled, chunks, None, []);
  }

  lemma MoreIfShort(frames: seq<Frame>, more: Str)
    requires (forall f :: f in frames ==> Sendable(f))
    ensures |more| < HEADER_SIZE || |more| < Uint(more[..4]) <= HEADER_SIZE + MAX_PAYLOAD_SIZE ==>
              ParseAll(Concat(Encodings(frames)) + more) == Parsed(frames, more, More)
  {
    hide Concat, Encodings, Sendable, Uint;
    FramesComeFirst(frames, more);
    assert frames + [] == frames;
  }

  /** A client that sends nothing but thirteen zero bytes makes the connection panic. */
  method PanicsOnZeros(pooled: Window) returns (back: Window, log: seq<Handled>, outcome: Outcome)
    requires pooled.Valid() && pooled.lo == pooled.hi
    modifies pooled.data
    ensures outcome == Panicked && log == []
  {
    hide ParseAll, LogGrew, Overwritable, Behind, AllIntact;
    var zeros: Str := seq(HEADER_SIZE, _ => 0);
    ZerosCrash();
    NothingBehind(pooled);
    assert zeros + [] == zeros;
    back, log, outcome := HandleConn(pooled, [zeros], None, []);
  }

  /** What is left of a payload behind its header when `s` is written over both. */
  lemma WrittenOver(was: Str, s: Str, lo: nat, hi: nat)
    requires lo + |s| <= |was| && lo + HEADER_SIZE <= hi <= |was|
    ensures var now, from := was[..lo] + s + was[lo + |s|..], lo + HEADER_SIZE;
            |now| == |was| && (now[from..hi] == was[from..hi] <==> Repeats(s, was[from..hi]))
  {
    var now, from := was[..lo] + s + was[lo + |s|..], lo + HEADER_SIZE;
    var after, before := now[from..hi], was[from..hi];
    assert forall j :: 0 <= j < hi - from ==>
      after[j] == if HEADER_SIZE + j < |s| then s[HEADER_SIZE + j] else before[j];
  }

  /** After a failed write, the first bytes that the next connection receives are written over the
      payload that was handed over last. It is unharmed exactly if they do not fit behind the buffer
      start, or repeat every byte of the payload that they reach. */
  method NextConnectionOverwrites(back: Window, s: Str, ghost h: Handled) returns (buf: Window)
    requires back.Valid() && back.lo == back.hi && Overwritable([h], back) && h.Intact()
    modifies back.data
    ensures h.Intact() <==>
            back.lo + |s| > back.data.Length || Repeats(s, h.frame.payload)
  {
    hide Repeats;
    ghost var was := back.data[..];
    assert was[h.lo..h.hi] == h.frame.payload;
    buf := Append(back, s);
    if back.lo + |s| <= back.data.Length {
      WrittenOver(was, s, back.lo, h.hi);
      assert back.data[h.lo..h.hi] == back.data[..][h.lo..h.hi];
    }
  }

  /** The write that failed left the buffer start in front of the frame it answered. */
  ghost predicate Overwritable(log: seq<Handled>, r: Window) {
    && |log| > 0
    && var h := log[|log| - 1];
    h.data == r.data && h.lo == r.lo + HEADER_SIZE
  }

  lemma FramesSnoc(log: seq<Handled>, h: Handled)
    ensures Frames(log + [h]) == Frames(log) + [h.frame]
  {
  }

  /** The shifted bytes have no bit in common, so that or-ing them is adding them. */
  function BinaryBEUint32(b: Str): nat
    requires |b| == 4
  {
    b[0] as nat * 0x100_0000 + b[1] as nat * 0x1_0000 + b[2] as nat * 0x100 + b[3]
  }

  function BinaryBEUint64(b: Str): nat
    requires |b| == 8
  {
    b[0] as nat * 0x100_0000_0000_0000 + b[1] as nat * 0x1_0000_0000_0000 + b[2] as nat * 0x100_0000_0000 +
    b[3] as nat * 0x1_0000_0000 + b[4] as nat * 0x100_0000 + b[5] as nat * 0x1_0000 + b[6] as nat * 0x100 + b[7]
  }

  lemma BinaryBEUint32Exact(b: Str)
    requires |b| == 4
    ensures BinaryBEUint32(b) == Uint(b)
  {
    UintOfParts(b, 2);
    UintOfTwo(b[..2]);
    UintOfTwo(b[2..]);
    Widths();
  }

  lemma BinaryBEUint64Exact(b: Str)
    requires |b| == 8
    ensures BinaryBEUint64(b) == Uint(b) < TWO_64
  {
    BinaryBEUint32Exact(b[..4]);
    BinaryBEUint32Exact(b[4..]);
    UintOfParts(b, 4);
    Widths();
  }

  lemma UintOfTwo(b: Str)
    requires |b| == 2
    ensures Uint(b) == b[0] as nat * 256 + b[1]
  {
    assert b[..1] == [b[0]] && b[..1][..0] == [];
  }

  lemma UintSnoc(u: Str, z: Byte)
    ensures Uint(u + [z]) == 256 * Uint(u) + z
  {
    assert (u + [z])[..|u|] == u;
  }

  lemma {:induction false} UintOfParts(b: Str, n: nat)
    requires n <= |b|
    ensures Uint(b) == Uint(b[..n]) * Pow256(|b| - n) + Uint(b[n..])
    decreases |b|
  {
    hide Uint;
    if n == |b| {
      assert b[..n] == b && b[n..] == [];
      assert Uint([]) < Pow256(0);
    } else {
      var m := |b| - 1;
      var u := b[..m];
      UintOfParts(u, n);
      assert b == u + [b[m]] && b[..n] == u[..n] && b[n..] == u[n..] + [b[m]];
      UintSnoc(u, b[m]);
      UintSnoc(u[n..], b[m]);
      SplitProduct(Uint(u[..n]), Pow256(m - n), Uint(u[n..]), b[m]);
    }
  }

  lemma SplitProduct(x: nat, p: nat, y: nat, z: nat)
    ensures 256 * (x * p + y) + z == x * (256 * p) + (256 * y + z)
  {
  }
}
