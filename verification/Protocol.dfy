/** Frames on the wire: a 4-byte length that counts the whole frame, a command byte, an 8-byte
    request identifier, and the payload. */
module Protocol {
  import opened GoTypes

  const HEADER_SIZE := 13
  const MAX_PAYLOAD_SIZE := 16 * 1024 * 1024

  const CMD_RESPONSE: Byte := 0xF0
  const CMD_ERROR: Byte := 0xFF

  type Uint64 = n: int | 0 <= n < 0x1_0000_0000_0000_0000

  datatype Frame = Frame(length: nat, command: Byte, requestID: Uint64, payload: Str)

  datatype Decoded = Decoded(frame: Frame) | Incomplete | TooLarge

  /** The bytes of a frame. The length field holds the low 32 bits of the total length. */
  function FrameBytes(f: Frame): (s: Str)
    ensures |s| == HEADER_SIZE + |f.payload|
  {
    PutUint(4, HEADER_SIZE + |f.payload|) + [f.command] + PutUint(8, f.requestID) + f.payload
  }

  /** binary.BigEndian.PutUintNN(buf[at:], v): the digits are written from the last to the first. */
  method WriteUint(buf: array<Byte>, at: nat, width: nat, v: nat)
    requires at + width <= buf.Length
    modifies buf
    ensures buf[..] == old(buf[..at]) + PutUint(width, v) + old(buf[at + width..])
  {
    hide PutUint;
    ghost var orig := buf[..];
    var i, rest := width, v;
    ghost var tail: Str := [];
    NoDigits(orig, at, width, PutUint(width, v));
    while i > 0
      invariant 0 <= i <= width && |tail| == width - i
      invariant PutUint(width, v) == PutUint(i, rest) + tail
      invariant buf[..] == Spliced(orig, at + i, tail)
    {
      DigitsStep(i, rest, tail);
      SpliceStep(orig, at + i, tail, rest % 256);
      i := i - 1;
      buf[at + i] := rest % 256;
      tail := [rest % 256] + tail;
      rest := rest / 256;
    }
    AllDigits(rest, tail);
  }

  /** s with part written over it from position at on. */
  ghost function Spliced(s: Str, at: nat, part: Str): Str
    requires at + |part| <= |s|
  {
    s[..at] + part + s[at + |part|..]
  }

  lemma SpliceStep(s: Str, at: nat, part: Str, b: Byte)
    requires 0 < at && at + |part| <= |s|
    ensures Spliced(s, at, part)[at - 1 := b] == Spliced(s, at - 1, [b] + part)
  {
  }

  lemma NoDigits(s: Str, at: nat, width: nat, digits: Str)
    requires at + width <= |s|
    ensures Spliced(s, at + width, []) == s && digits + [] == digits
  {
  }

  lemma AllDigits(rest: nat, tail: Str)
    ensures PutUint(0, rest) + tail == tail
  {
  }

  lemma DigitsStep(i: nat, rest: nat, tail: Str)
    requires i > 0
    ensures PutUint(i, rest) + tail == PutUint(i - 1, rest / 256) + ([rest % 256] + tail)
  {
  }

  /** copy(buf[at:], s) */
  method WriteBytes(buf: array<Byte>, at: nat, s: Str)
    requires at + |s| <= buf.Length
    modifies buf
    ensures buf[..] == old(buf[..at]) + s + old(buf[at + |s|..])
  {
    forall i | 0 <= i < |s| {
      buf[at + i] := s[i];
    }
    assert buf[..] == buf[..at] + buf[at..at + |s|] + buf[at + |s|..];
    assert buf[at..at + |s|] == s;
  }

  method Encode(f: Frame) returns (buf: array<Byte>)
    ensures fresh(buf) && buf[..] == FrameBytes(f)
  {
    var total := HEADER_SIZE + |f.payload|;
    buf := new Byte[total](_ => 0);
    WriteUint(buf, 0, 4, total);
    buf[4] := f.command;
    assert buf[..5] == PutUint(4, total) + [f.command];
    WriteUint(buf, 5, 8, f.requestID);
    if |f.payload| > 0 {
      WriteBytes(buf, 13, f.payload);
    }
  }

  function DecodeFrame(data: Str): Decoded {
    if |data| < HEADER_SIZE then Incomplete else
      var length := Uint(data[..4]);
      if length > MAX_PAYLOAD_SIZE + HEADER_SIZE then TooLarge
      else if |data| % 0x1_0000_0000 < length then Incomplete
      else
        assert |data| % 0x1_0000_0000 <= |data| by { ModAtMost(|data|, 0x1_0000_0000); }
        Decoded(Frame(length, data[4], RequestID(data), if length > HEADER_SIZE then data[HEADER_SIZE..length] else []))
  }

  function RequestID(data: Str): Uint64
    requires |data| >= HEADER_SIZE
  {
    Widths();
    Uint(data[5..13])
  }

  /** NewFrame. */
  function NewFrame(command: Byte, requestID: Uint64, payload: Str): Frame {
    Frame((HEADER_SIZE + |payload|) % 0x1_0000_0000, command, requestID, payload)
  }

  lemma HeaderFields(f: Frame, rest: Str)
    ensures var s := FrameBytes(f) + rest;
            Uint(s[..4]) == (HEADER_SIZE + |f.payload|) % 0x1_0000_0000 &&
            s[4] == f.command && Uint(s[5..13]) == RequestID(s) == f.requestID &&
            s[HEADER_SIZE..HEADER_SIZE + |f.payload|] == f.payload
  {
    var s := FrameBytes(f) + rest;
    Widths();
    UintOfPut(4, HEADER_SIZE + |f.payload|);
    UintOfPut(8, f.requestID);
    assert s[..4] == PutUint(4, HEADER_SIZE + |f.payload|);
    assert s[5..13] == PutUint(8, f.requestID);
    SmallMod(f.requestID, TWO_64);
  }

  /** Decoding an encoded frame, whatever follows it, gives it back exactly if its payload is within
      the limit and the number of bytes given, as a 32-bit number, covers it. */
  lemma DecodeOfEncodeIff(f: Frame, rest: Str)
    ensures var s := FrameBytes(f) + rest;
            DecodeFrame(s) == Decoded(NewFrame(f.command, f.requestID, f.payload)) <==>
            |f.payload| <= MAX_PAYLOAD_SIZE && |s| % 0x1_0000_0000 >= HEADER_SIZE + |f.payload|
    ensures MAX_PAYLOAD_SIZE < |f.payload| < 0x1_0000_0000 - HEADER_SIZE ==>
            DecodeFrame(FrameBytes(f) + rest) == TooLarge
  {
    HeaderFields(f, rest);
    if HEADER_SIZE + |f.payload| < 0x1_0000_0000 {
      SmallMod(HEADER_SIZE + |f.payload|, 0x1_0000_0000);
    }
  }

  /** What decodes, encodes to the bytes it was decoded from, exactly if its length field counts at
      least the header. */
  lemma EncodeOfDecodeIff(data: Str)
    requires DecodeFrame(data).Decoded?
    ensures var f := DecodeFrame(data).frame;
            f.length <= |data| && (FrameBytes(f) == data[..f.length] <==> f.length >= HEADER_SIZE)
  {
    var f := DecodeFrame(data).frame;
    if f.length >= HEADER_SIZE {
      Widths();
      PutOfUint(data[..4]);
      PutOfUint(data[5..13]);
      assert data[..f.length] == data[..4] + [data[4]] + data[5..13] + data[13..f.length];
    }
  }

  // ---------- Responses ----------

  method NewResponseFrame(requestID: Uint64, status: Byte, data: Str) returns (f: Frame)
    ensures f == NewFrame(CMD_RESPONSE, requestID, [status] + data)
  {
    var payload := new Byte[1 + |data|](_ => 0);
    payload[0] := status;
    if |data| > 0 {
      WriteBytes(payload, 1, data);
    }
    assert payload[..] == [status] + data;
    f := NewFrame(CMD_RESPONSE, requestID, payload[..]);
  }

  method NewErrorFrame(requestID: Uint64, status: Byte, message: Str) returns (f: Frame)
    ensures f == NewFrame(CMD_ERROR, requestID, [status] + message)
  {
    var payload := new Byte[1 + |message|](_ => 0);
    payload[0] := status;
    WriteBytes(payload, 1, message);
    assert payload[..] == [status] + message;
    f := NewFrame(CMD_ERROR, requestID, payload[..]);
  }

  function ParseResponsePayload(payload: Str): Result<(Byte, Str)> {
    if |payload| < 1 then Err else Ok((payload[0], payload[1..]))
  }

  /** A client gets back the status and the data of a response exactly if they fit one payload. */
  lemma ResponseRoundTripIff(command: Byte, requestID: Uint64, status: Byte, data: Str)
    ensures var d := DecodeFrame(FrameBytes(NewFrame(command, requestID, [status] + data)));
            (d.Decoded? && d.frame.requestID == requestID && d.frame.command == command &&
             ParseResponsePayload(d.frame.payload) == Ok((status, data)))
            <==> 1 + |data| <= MAX_PAYLOAD_SIZE
  {
    var f := NewFrame(command, requestID, [status] + data);
    assert FrameBytes(f) + [] == FrameBytes(f);
    DecodeOfEncodeIff(f, []);
    HeaderFields(f, []);
    assert ([status] + data)[1..] == data;
    if 1 + |data| <= MAX_PAYLOAD_SIZE {
      SmallMod(|FrameBytes(f)|, 0x1_0000_0000);
    } else {
      SameResponse(f, status, data);
    }
  }

  lemma SameResponse(f: Frame, status: Byte, data: Str)
    requires f.payload == [status] + data && f == NewFrame(f.command, f.requestID, f.payload)
    ensures var d := DecodeFrame(FrameBytes(f));
            d.Decoded? && ParseResponsePayload(d.frame.payload) == Ok((status, data)) ==> d == Decoded(f)
  {
    assert FrameBytes(f) + [] == FrameBytes(f);
    HeaderFields(f, []);
    var d := DecodeFrame(FrameBytes(f));
    if d.Decoded? && d.frame.payload != [] {
      assert d.frame.payload == [d.frame.payload[0]] + d.frame.payload[1..];
    }
  }
}
