/** The payloads of the SET, GET and DELETE commands: length-prefixed strings, an expiry, a flag
    byte and a length-prefixed value. */
module Codec {
  import opened GoTypes
  import opened Protocol

  datatype SetPayload = SetPayload(token: Str, bucket: Str, key: Str, ttl: Int64, singleRead: bool, value: Str)
  datatype GetPayload = GetPayload(token: Str, bucket: Str, key: Str)
  datatype ValuePayload = ValuePayload(key: Str, ttl: Int64, createdAt: Int64, expiresAt: Int64, singleRead: bool,
    value: Str)

  // ---------- The formats ----------

  /** The length field holds the low 16 bits of the length. */
  function StringBytes(s: Str): (r: Str)
    ensures |r| == 2 + |s|
  {
    PutUint(2, |s|) + s
  }

  function FlagByte(b: bool): Byte {
    if b then 1 else 0
  }

  function ValueBytes(value: Str): (r: Str)
    ensures |r| == 4 + |value|
  {
    PutUint(4, |value|) + value
  }

  function GetBytes(p: GetPayload): Str {
    StringBytes(p.token) + (StringBytes(p.bucket) + StringBytes(p.key))
  }

  /** A set payload with any byte in place of the flag. */
  function FlaggedBytes(p: SetPayload, flag: Byte): Str {
    StringBytes(p.token) + (StringBytes(p.bucket) + (StringBytes(p.key) +
      (Int64Bytes(p.ttl) + ([flag] + ValueBytes(p.value)))))
  }

  function SetBytes(p: SetPayload): Str {
    FlaggedBytes(p, FlagByte(p.singleRead))
  }

  function ResponseBytes(p: ValuePayload): Str {
    StringBytes(p.key) + (Int64Bytes(p.ttl) + (Int64Bytes(p.createdAt) + (Int64Bytes(p.expiresAt) +
      ([FlagByte(p.singleRead)] + ValueBytes(p.value)))))
  }

  ghost predicate Fits(p: SetPayload) {
    && |p.token| < 0x1_0000 && |p.bucket| < 0x1_0000 && |p.key| < 0x1_0000
    && |p.value| < 0x1_0000_0000
  }

  ghost predicate GetFits(p: GetPayload) {
    |p.token| < 0x1_0000 && |p.bucket| < 0x1_0000 && |p.key| < 0x1_0000
  }

  // ---------- Where the fields stand ----------

  ghost predicate StringAt(s: Str, at: nat, t: Str) {
    && at + 2 + |t| <= |s|
    && Uint(s[at..at + 2]) == |t| % 0x1_0000 && s[at + 2..at + 2 + |t|] == t
  }

  ghost predicate ValueAt(s: Str, at: nat, value: Str) {
    at + 4 <= |s| && Uint(s[at..at + 4]) == |value| % 0x1_0000_0000 && s[at + 4..] == value
  }

  ghost predicate Int64At(s: Str, at: nat, n: Int64) {
    at + 8 <= |s| && Uint(s[at..at + 8]) == ToUint64(n)
  }

  lemma StringStands(s: Str, at: nat, t: Str, rest: Str)
    requires at <= |s| && s[at..] == StringBytes(t) + rest
    ensures StringAt(s, at, t) && s[at + 2 + |t|..] == rest
  {
    hide PutUint, Uint;
    Widths();
    UintOfPut(2, |t|);
    assert s[at..at + 2] == s[at..][..2] == PutUint(2, |t|);
    assert s[at + 2..at + 2 + |t|] == s[at..][2..2 + |t|];
    assert s[at + 2 + |t|..] == s[at..][2 + |t|..];
  }

  lemma ValueStands(s: Str, at: nat, value: Str)
    requires at <= |s| && s[at..] == ValueBytes(value)
    ensures ValueAt(s, at, value)
  {
    hide PutUint, Uint;
    Widths();
    UintOfPut(4, |value|);
    assert s[at..at + 4] == s[at..][..4] == PutUint(4, |value|);
    assert s[at + 4..] == s[at..][4..];
  }

  lemma Int64Stands(s: Str, at: nat, n: Int64, rest: Str)
    requires at <= |s| && s[at..] == Int64Bytes(n) + rest
    ensures Int64At(s, at, n) && s[at + 8..] == rest
  {
    hide PutUint, Uint;
    Widths();
    UintOfPut(8, ToUint64(n));
    SmallMod(ToUint64(n), TWO_64);
    assert s[at..at + 8] == s[at..][..8];
    assert s[at + 8..] == s[at..][8..];
  }

  lemma GetLayout(p: GetPayload)
    ensures var s := GetBytes(p);
            var bucketAt := 2 + |p.token|;
            var keyAt := bucketAt + 2 + |p.bucket|;
            StringAt(s, 0, p.token) && StringAt(s, bucketAt, p.bucket) && StringAt(s, keyAt, p.key) &&
            |s| == keyAt + 2 + |p.key|
  {
    hide StringBytes, StringAt;
    var s := GetBytes(p);
    assert s[0..] == s;
    StringStands(s, 0, p.token, StringBytes(p.bucket) + StringBytes(p.key));
    StringStands(s, 2 + |p.token|, p.bucket, StringBytes(p.key));
    assert StringBytes(p.key) + [] == StringBytes(p.key);
    StringStands(s, 4 + |p.token| + |p.bucket|, p.key, []);
  }

  lemma SetLayout(p: SetPayload)
    ensures var s := SetBytes(p);
            var bucketAt := 2 + |p.token|;
            var keyAt := bucketAt + 2 + |p.bucket|;
            var ttlAt := keyAt + 2 + |p.key|;
            StringAt(s, 0, p.token) && StringAt(s, bucketAt, p.bucket) && StringAt(s, keyAt, p.key) &&
            Int64At(s, ttlAt, p.ttl) && |s| > ttlAt + 8 && s[ttlAt + 8] == (if p.singleRead then 1 else 0) &&
            ValueAt(s, ttlAt + 9, p.value)
  {
    hide StringBytes, StringAt, Int64Bytes, Int64At, ValueBytes, ValueAt;
    var s := SetBytes(p);
    var value := ValueBytes(p.value);
    var ttl := Int64Bytes(p.ttl) + ([FlagByte(p.singleRead)] + value);
    var at := 6 + |p.token| + |p.bucket| + |p.key|;
    assert s[0..] == s;
    StringStands(s, 0, p.token, StringBytes(p.bucket) + (StringBytes(p.key) + ttl));
    StringStands(s, 2 + |p.token|, p.bucket, StringBytes(p.key) + ttl);
    StringStands(s, 4 + |p.token| + |p.bucket|, p.key, ttl);
    Int64Stands(s, at, p.ttl, [FlagByte(p.singleRead)] + value);
    assert s[at + 8] == s[at + 8..][0] && s[at + 9..] == s[at + 8..][1..];
    ValueStands(s, at + 9, p.value);
  }

  lemma ResponseLayout(p: ValuePayload)
    ensures var s := ResponseBytes(p);
            var ttlAt := 2 + |p.key|;
            StringAt(s, 0, p.key) && Int64At(s, ttlAt, p.ttl) && Int64At(s, ttlAt + 8, p.createdAt) &&
            Int64At(s, ttlAt + 16, p.expiresAt) && |s| > ttlAt + 24 &&
            s[ttlAt + 24] == (if p.singleRead then 1 else 0) && ValueAt(s, ttlAt + 25, p.value)
  {
    hide StringBytes, StringAt, Int64Bytes, Int64At, ValueBytes, ValueAt;
    var s := ResponseBytes(p);
    var at := 2 + |p.key|;
    var flag := [FlagByte(p.singleRead)] + ValueBytes(p.value);
    var expires := Int64Bytes(p.expiresAt) + flag;
    assert s[0..] == s;
    StringStands(s, 0, p.key, Int64Bytes(p.ttl) + (Int64Bytes(p.createdAt) + expires));
    Int64Stands(s, at, p.ttl, Int64Bytes(p.createdAt) + expires);
    Int64Stands(s, at + 8, p.createdAt, expires);
    Int64Stands(s, at + 16, p.expiresAt, flag);
    assert s[at + 24] == s[at + 24..][0] && s[at + 25..] == s[at + 24..][1..];
    ValueStands(s, at + 25, p.value);
  }

  // ---------- Encoders, filling a buffer at an advancing offset ----------

  /** The part of buf before at is written, the rest is still zero. */
  ghost predicate Filled(buf: array<Byte>, at: nat, s: Str)
    reads buf
  {
    at == |s| <= buf.Length && buf[..at] == s && forall k :: at <= k < buf.Length ==> buf[k] == 0
  }

  method WriteString(buf: array<Byte>, offset: nat, s: Str, ghost done: Str) returns (next: nat)
    requires Filled(buf, offset, done) && offset + 2 + |s| <= buf.Length
    modifies buf
    ensures next == offset + 2 + |s| && Filled(buf, next, done + StringBytes(s))
  {
    next := AppendUint(buf, offset, 2, |s|, done);
    next := AppendBytes(buf, next, s, done + PutUint(2, |s|));
    assert (done + PutUint(2, |s|)) + s == done + StringBytes(s);
  }

  method AppendUint(buf: array<Byte>, offset: nat, width: nat, v: nat, ghost done: Str) returns (next: nat)
    requires Filled(buf, offset, done) && offset + width <= buf.Length
    modifies buf
    ensures next == offset + width && Filled(buf, next, done + PutUint(width, v))
  {
    ghost var was := buf[..];
    WriteUint(buf, offset, width, v);
    next := offset + width;
    RestKept(was, buf[..], offset, PutUint(width, v));
    assert buf[..next] == buf[..][..next];
  }

  method AppendBytes(buf: array<Byte>, offset: nat, s: Str, ghost done: Str) returns (next: nat)
    requires Filled(buf, offset, done) && offset + |s| <= buf.Length
    modifies buf
    ensures next == offset + |s| && Filled(buf, next, done + s)
  {
    ghost var was := buf[..];
    WriteBytes(buf, offset, s);
    next := offset + |s|;
    RestKept(was, buf[..], offset, s);
    assert buf[..next] == buf[..][..next];
  }

  lemma RestKept(was: Str, now: Str, at: nat, part: Str)
    requires at + |part| <= |was| && now == was[..at] + part + was[at + |part|..]
    ensures |now| == |was| && now[..at + |part|] == was[..at] + part
    ensures forall k :: at + |part| <= k < |now| ==> now[k] == was[k]
  {
  }

  /** The flag: the buffer is zero to begin with, so only true needs a write. */
  method AppendFlag(buf: array<Byte>, offset: nat, b: bool, ghost done: Str) returns (next: nat)
    requires Filled(buf, offset, done) && offset < buf.Length
    modifies buf
    ensures next == offset + 1 && Filled(buf, next, done + [FlagByte(b)])
  {
    if b {
      buf[offset] := 1;
    }
    next := offset + 1;
    assert buf[..next] == buf[..offset] + [buf[offset]];
  }

  method EncodeSetPayload(p: SetPayload) returns (buf: array<Byte>)
    ensures fresh(buf) && buf[..] == SetBytes(p)
  {
    hide PutUint, StringBytes;
    var size := 2 + |p.token| + 2 + |p.bucket| + 2 + |p.key| + 8 + 1 + 4 + |p.value|;
    buf := new Byte[size](_ => 0);
    var offset := WriteString(buf, 0, p.token, []);
    ghost var a := [] + StringBytes(p.token);
    offset := WriteString(buf, offset, p.bucket, a);
    ghost var b := a + StringBytes(p.bucket);
    offset := WriteString(buf, offset, p.key, b);
    ghost var c := b + StringBytes(p.key);
    offset := AppendUint(buf, offset, 8, ToUint64(p.ttl), c);
    ghost var d := c + PutUint(8, ToUint64(p.ttl));
    offset := AppendFlag(buf, offset, p.singleRead, d);
    ghost var e := d + [FlagByte(p.singleRead)];
    offset := AppendUint(buf, offset, 4, |p.value|, e);
    ghost var f := e + PutUint(4, |p.value|);
    offset := AppendBytes(buf, offset, p.value, f);
    assert buf[..offset] == buf[..];
    SetAssociates(p);
  }

  lemma SetAssociates(p: SetPayload)
    ensures var strings := (([] + StringBytes(p.token)) + StringBytes(p.bucket)) + StringBytes(p.key);
            var flagged := (strings + PutUint(8, ToUint64(p.ttl))) + [FlagByte(p.singleRead)];
            (flagged + PutUint(4, |p.value|)) + p.value == SetBytes(p)
  {
  }

  method EncodeGetPayload(p: GetPayload) returns (buf: array<Byte>)
    ensures fresh(buf) && buf[..] == GetBytes(p)
  {
    hide StringBytes;
    var size := 2 + |p.token| + 2 + |p.bucket| + 2 + |p.key|;
    buf := new Byte[size](_ => 0);
    var offset := WriteString(buf, 0, p.token, []);
    ghost var a := [] + StringBytes(p.token);
    offset := WriteString(buf, offset, p.bucket, a);
    offset := WriteString(buf, offset, p.key, a + StringBytes(p.bucket));
    assert buf[..offset] == buf[..];
    assert (a + StringBytes(p.bucket)) + StringBytes(p.key) == GetBytes(p);
  }

  method EncodeDeletePayload(p: GetPayload) returns (buf: array<Byte>)
    ensures fresh(buf) && buf[..] == GetBytes(p)
  {
    buf := EncodeGetPayload(p);
  }

  method EncodeValueResponse(p: ValuePayload) returns (buf: array<Byte>)
    ensures fresh(buf) && buf[..] == ResponseBytes(p)
  {
    hide PutUint, StringBytes;
    var size := 2 + |p.key| + 8 + 8 + 8 + 1 + 4 + |p.value|;
    buf := new Byte[size](_ => 0);
    var offset := WriteString(buf, 0, p.key, []);
    ghost var a := [] + StringBytes(p.key);
    offset := AppendUint(buf, offset, 8, ToUint64(p.ttl), a);
    ghost var b := a + PutUint(8, ToUint64(p.ttl));
    offset := AppendUint(buf, offset, 8, ToUint64(p.createdAt), b);
    ghost var c := b + PutUint(8, ToUint64(p.createdAt));
    offset := AppendUint(buf, offset, 8, ToUint64(p.expiresAt), c);
    ghost var d := c + PutUint(8, ToUint64(p.expiresAt));
    offset := AppendFlag(buf, offset, p.singleRead, d);
    ghost var e := d + [FlagByte(p.singleRead)];
    offset := AppendUint(buf, offset, 4, |p.value|, e);
    offset := AppendBytes(buf, offset, p.value, e + PutUint(4, |p.value|));
    assert buf[..offset] == buf[..];
    ResponseAssociates(p);
  }

  lemma ResponseAssociates(p: ValuePayload)
    ensures var key := [] + StringBytes(p.key);
            var two := (key + PutUint(8, ToUint64(p.ttl))) + PutUint(8, ToUint64(p.createdAt));
            var times := two + PutUint(8, ToUint64(p.expiresAt));
            ((times + [FlagByte(p.singleRead)]) + PutUint(4, |p.value|)) + p.value == ResponseBytes(p)
  {
  }

  // ---------- Decoders ----------

  /** What can be read from the front of s, and what is left. */
  function TakeString(s: Str): (r: Result<(Str, Str)>)
    ensures r.Ok? ==> |r.value.1| <= |s|
  {
    if |s| < 2 then Err else
      var n := Uint(s[..2]);
      if |s| - 2 < n then Err else Ok((s[2..2 + n], s[2 + n..]))
  }

  function TakeGet(s: Str): Result<(GetPayload, Str)> {
    match TakeString(s)
    case Err => Err
    case Ok((token, s1)) =>
      match TakeString(s1)
      case Err => Err
      case Ok((bucket, s2)) =>
        match TakeString(s2)
        case Err => Err
        case Ok((key, s3)) => Ok((GetPayload(token, bucket, key), s3))
  }

  function TakeValue(s: Str): Result<(Str, Str)> {
    if |s| < 4 then Err else
      var n := Uint(s[..4]);
      if |s| - 4 < n then Err else Ok((s[4..4 + n], s[4 + n..]))
  }

  /** With the flag byte as it stands. */
  function TakeSet(s: Str): Result<(SetPayload, Byte, Str)> {
    match TakeGet(s)
    case Err => Err
    case Ok((p, s3)) =>
      if |s3| < 9 then Err else
        match TakeValue(s3[9..])
        case Err => Err
        case Ok((value, rest)) =>
          Ok((SetPayload(p.token, p.bucket, p.key, Int64Of(s3[..8]), s3[8] == 1, value), s3[8], rest))
  }

  method ReadString(data: Str, offset: nat) returns (s: Result<Str>, next: nat)
    requires offset <= |data|
    ensures match TakeString(data[offset..])
            case Ok((t, rest)) => s == Ok(t) && next <= |data| && data[next..] == rest
            case Err => s == Err && next == if |data| < offset + 2 then offset else offset + 2
  {
    if |data| < offset + 2 {
      return Err, offset;
    }
    assert data[offset..][..2] == data[offset..offset + 2];
    var strLen := Uint(data[offset..offset + 2]);
    next := offset + 2;
    if |data| < next + strLen {
      return Err, next;
    }
    assert data[offset..][2..2 + strLen] == data[next..next + strLen];
    assert data[offset..][2 + strLen..] == data[next + strLen..];
    return Ok(data[next..next + strLen]), next + strLen;
  }

  method DecodeGetPayload(data: Str) returns (r: Result<GetPayload>)
    ensures r == match TakeGet(data) { case Ok((p, _)) => Ok(p) case Err => Err }
  {
    hide TakeString;
    var offset := 0;
    var token, bucket, key;
    assert data[0..] == data;
    token, offset := ReadString(data, offset);
    if token.Err? {
      return Err;
    }
    bucket, offset := ReadString(data, offset);
    if bucket.Err? {
      return Err;
    }
    key, offset := ReadString(data, offset);
    if key.Err? {
      return Err;
    }
    return Ok(GetPayload(token.value, bucket.value, key.value));
  }

  method DecodeDeletePayload(data: Str) returns (r: Result<GetPayload>)
    ensures r == match TakeGet(data) { case Ok((p, _)) => Ok(p) case Err => Err }
  {
    r := DecodeGetPayload(data);
  }

  method DecodeSetPayload(data: Str) returns (r: Result<SetPayload>)
    ensures r == match TakeSet(data) { case Ok((p, _, _)) => Ok(p) case Err => Err }
  {
    hide TakeString;
    var offset := 0;
    var token, bucket, key;
    assert data[0..] == data;
    token, offset := ReadString(data, offset);
    if token.Err? {
      return Err;
    }
    bucket, offset := ReadString(data, offset);
    if bucket.Err? {
      return Err;
    }
    key, offset := ReadString(data, offset);
    if key.Err? {
      return Err;
    }
    ghost var s3 := data[offset..];
    if |data| < offset + 8 {
      return Err;
    }
    assert s3[..8] == data[offset..offset + 8];
    var ttl := Int64Of(data[offset..offset + 8]);
    offset := offset + 8;
    if |data| < offset + 1 {
      return Err;
    }
    var singleRead := data[offset] == 1;
    offset := offset + 1;
    assert s3[9..] == data[offset..];
    if |data| < offset + 4 {
      return Err;
    }
    assert data[offset..][..4] == data[offset..offset + 4];
    var valueLen := Uint(data[offset..offset + 4]);
    offset := offset + 4;
    if |data| < offset + valueLen {
      return Err;
    }
    var value := data[offset..offset + valueLen];
    assert s3[9..][4..4 + valueLen] == value;
    return Ok(SetPayload(token.value, bucket.value, key.value, ttl, singleRead, value));
  }

  // ---------- Exactly what decodes ----------

  lemma TakeStringExact(s: Str, t: Str, rest: Str)
    ensures TakeString(s) == Ok((t, rest)) <==> s == StringBytes(t) + rest && |t| < 0x1_0000
  {
    hide TakeString, StringBytes;
    if TakeString(s) == Ok((t, rest)) {
      StringTaken(s, t, rest);
    }
    if s == StringBytes(t) + rest && |t| < 0x1_0000 {
      StringGiven(t, rest);
    }
  }

  lemma StringTaken(s: Str, t: Str, rest: Str)
    requires TakeString(s) == Ok((t, rest))
    ensures s == StringBytes(t) + rest && |t| < 0x1_0000
  {
    hide PutUint, Uint;
    Widths();
    PutOfUint(s[..2]);
    assert s == s[..2] + s[2..2 + |t|] + s[2 + |t|..];
  }

  lemma StringGiven(t: Str, rest: Str)
    requires |t| < 0x1_0000
    ensures TakeString(StringBytes(t) + rest) == Ok((t, rest))
  {
    hide PutUint, Uint;
    var s := StringBytes(t) + rest;
    Widths();
    UintOfPut(2, |t|);
    SmallMod(|t|, 0x1_0000);
    assert s[..2] == PutUint(2, |t|) && s[2..2 + |t|] == t && s[2 + |t|..] == rest;
  }

  lemma TakeValueExact(s: Str, t: Str, rest: Str)
    ensures TakeValue(s) == Ok((t, rest)) <==> s == ValueBytes(t) + rest && |t| < 0x1_0000_0000
  {
    hide TakeValue, ValueBytes;
    if TakeValue(s) == Ok((t, rest)) {
      ValueTaken(s, t, rest);
    }
    if s == ValueBytes(t) + rest && |t| < 0x1_0000_0000 {
      ValueGiven(t, rest);
    }
  }

  lemma ValueTaken(s: Str, t: Str, rest: Str)
    requires TakeValue(s) == Ok((t, rest))
    ensures s == ValueBytes(t) + rest && |t| < 0x1_0000_0000
  {
    hide PutUint, Uint;
    Widths();
    PutOfUint(s[..4]);
    assert s == s[..4] + s[4..4 + |t|] + s[4 + |t|..];
  }

  lemma ValueGiven(t: Str, rest: Str)
    requires |t| < 0x1_0000_0000
    ensures TakeValue(ValueBytes(t) + rest) == Ok((t, rest))
  {
    hide PutUint, Uint;
    var s := ValueBytes(t) + rest;
    Widths();
    UintOfPut(4, |t|);
    SmallMod(|t|, 0x1_0000_0000);
    assert s[..4] == PutUint(4, |t|) && s[4..4 + |t|] == t && s[4 + |t|..] == rest;
  }

  /** A GET or DELETE payload decodes exactly when it is the encoding of one that fits, with anything
      after it. */
  lemma TakeGetExact(s: Str, p: GetPayload, rest: Str)
    ensures TakeGet(s) == Ok((p, rest)) <==> s == GetBytes(p) + rest && GetFits(p)
  {
    hide TakeString, StringBytes;
    var t, b, k := StringBytes(p.token), StringBytes(p.bucket), StringBytes(p.key);
    assert GetBytes(p) + rest == t + (b + (k + rest));
    TakeStringExact(s, p.token, b + (k + rest));
    TakeStringExact(b + (k + rest), p.bucket, k + rest);
    TakeStringExact(k + rest, p.key, rest);
    if TakeGet(s) == Ok((p, rest)) {
      var s1 := TakeString(s).value.1;
      var s2 := TakeString(s1).value.1;
      TakeStringExact(s, p.token, s1);
      TakeStringExact(s1, p.bucket, s2);
      TakeStringExact(s2, p.key, rest);
    }
  }

  /** A SET payload decodes exactly when it is the encoding of one that fits, with any flag byte that
      means its single-read flag and anything after it. */
  lemma TakeSetExact(s: Str, p: SetPayload, flag: Byte, rest: Str)
    ensures TakeSet(s) == Ok((p, flag, rest)) <==>
            s == FlaggedBytes(p, flag) + rest && Fits(p) && (p.singleRead <==> flag == 1)
  {
    hide TakeGet, TakeValue, GetBytes, Int64Bytes, ValueBytes, Int64Of;
    var g := GetPayload(p.token, p.bucket, p.key);
    var tail := Int64Bytes(p.ttl) + ([flag] + (ValueBytes(p.value) + rest));
    SetSplits(p, flag, rest);
    TakeGetExact(s, g, tail);
    assert tail[..8] == Int64Bytes(p.ttl) && tail[8] == flag && tail[9..] == ValueBytes(p.value) + rest;
    Int64Exact(tail[..8], p.ttl);
    TakeValueExact(tail[9..], p.value, rest);
    if TakeSet(s) == Ok((p, flag, rest)) {
      var s3 := TakeGet(s).value.1;
      TakeGetExact(s, g, s3);
      Int64Exact(s3[..8], p.ttl);
      TakeValueExact(s3[9..], p.value, rest);
      assert s3 == s3[..8] + ([s3[8]] + s3[9..]);
    }
  }

  lemma SetSplits(p: SetPayload, flag: Byte, rest: Str)
    ensures FlaggedBytes(p, flag) + rest ==
            GetBytes(GetPayload(p.token, p.bucket, p.key)) +
              (Int64Bytes(p.ttl) + ([flag] + (ValueBytes(p.value) + rest)))
  {
  }

  /** What is encoded comes back exactly if its strings are shorter than 2^16 and its value than 2^32. */
  lemma SetRoundTripIff(p: SetPayload, rest: Str)
    ensures TakeSet(SetBytes(p) + rest) == Ok((p, FlagByte(p.singleRead), rest)) <==> Fits(p)
    ensures !Fits(p) ==> TakeSet(SetBytes(p) + rest).Err? || TakeSet(SetBytes(p) + rest).value.0 != p
  {
    hide TakeSet, FlaggedBytes;
    var s := SetBytes(p) + rest;
    TakeSetExact(s, p, FlagByte(p.singleRead), rest);
    if TakeSet(s).Ok? {
      var v := TakeSet(s).value;
      TakeSetExact(s, v.0, v.1, v.2);
    }
  }

  lemma GetRoundTripIff(p: GetPayload, rest: Str)
    ensures TakeGet(GetBytes(p) + rest) == Ok((p, rest)) <==> GetFits(p)
    ensures !GetFits(p) ==> TakeGet(GetBytes(p) + rest).Err? || TakeGet(GetBytes(p) + rest).value.0 != p
  {
    hide TakeGet, GetBytes;
    var s := GetBytes(p) + rest;
    TakeGetExact(s, p, rest);
    if TakeGet(s).Ok? {
      var v := TakeGet(s).value;
      TakeGetExact(s, v.0, v.1);
    }
  }

  /** What decodes, encodes to the bytes that were read exactly if the flag byte was 0 or 1. */
  lemma SetReencodeIff(s: Str)
    requires TakeSet(s).Ok?
    ensures var (p, flag, rest) := TakeSet(s).value;
            |rest| <= |s| && (SetBytes(p) == s[..|s| - |rest|] <==> flag == 0 || flag == 1)
  {
    hide TakeSet, FlaggedBytes;
    var v := TakeSet(s).value;
    var p, flag, rest := v.0, v.1, v.2;
    TakeSetExact(s, p, flag, rest);
    var read := FlaggedBytes(p, flag);
    assert s[..|s| - |rest|] == read;
    FlagMatters(p, flag, FlagByte(p.singleRead));
  }

  lemma FlagMatters(p: SetPayload, a: Byte, b: Byte)
    ensures FlaggedBytes(p, a) == FlaggedBytes(p, b) <==> a == b
  {
    var n := |StringBytes(p.token)| + |StringBytes(p.bucket)| + |StringBytes(p.key)| + 8;
    FlagAt(p, a, n);
    FlagAt(p, b, n);
  }

  lemma FlagAt(p: SetPayload, a: Byte, n: nat)
    requires n == |StringBytes(p.token)| + |StringBytes(p.bucket)| + |StringBytes(p.key)| + 8
    ensures n < |FlaggedBytes(p, a)| && FlaggedBytes(p, a)[n] == a
  {
    SetSplits(p, a, []);
    var g := GetBytes(GetPayload(p.token, p.bucket, p.key));
    var tail := Int64Bytes(p.ttl) + ([a] + (ValueBytes(p.value) + []));
    assert FlaggedBytes(p, a) + [] == FlaggedBytes(p, a);
    assert tail[8] == a && (g + tail)[n] == tail[8];
  }

  /** Two value responses that fit their length fields differ on the wire. */
  lemma ResponsesDiffer(a: ValuePayload, b: ValuePayload)
    requires |a.key| < 0x1_0000 && |a.value| < 0x1_0000_0000 && |b.key| < 0x1_0000 && |b.value| < 0x1_0000_0000
    requires ResponseBytes(a) == ResponseBytes(b)
    ensures a == b
  {
    hide TakeString, TakeValue, StringBytes, Int64Bytes, ValueBytes, Int64Of;
    var ta, tb := ResponseTail(a), ResponseTail(b);
    TakeStringExact(ResponseBytes(a), a.key, ta);
    TakeStringExact(ResponseBytes(b), b.key, tb);
    assert ta == tb;
    TailFields(a);
    TailFields(b);
  }

  function ResponseTail(p: ValuePayload): (t: Str)
    ensures ResponseBytes(p) == StringBytes(p.key) + t
  {
    Int64Bytes(p.ttl) + (Int64Bytes(p.createdAt) + (Int64Bytes(p.expiresAt) +
      ([FlagByte(p.singleRead)] + ValueBytes(p.value))))
  }

  lemma TailFields(p: ValuePayload)
    requires |p.value| < 0x1_0000_0000
    ensures var t := ResponseTail(p);
            |t| >= 25 && Int64Of(t[..8]) == p.ttl && Int64Of(t[8..16]) == p.createdAt &&
              Int64Of(t[16..24]) == p.expiresAt &&
            (t[24] == 1 <==> p.singleRead) && TakeValue(t[25..]) == Ok((p.value, []))
  {
    hide TakeValue, Int64Bytes, ValueBytes, Int64Of;
    var t := ResponseTail(p);
    assert t[..8] == Int64Bytes(p.ttl) && t[8..16] == Int64Bytes(p.createdAt) && t[16..24] == Int64Bytes(p.expiresAt);
    Int64Exact(t[..8], p.ttl);
    Int64Exact(t[8..16], p.createdAt);
    Int64Exact(t[16..24], p.expiresAt);
    assert t[25..] == ValueBytes(p.value) + [];
    TakeValueExact(t[25..], p.value, []);
  }
}
