/** Access tokens, as bytes: bucket name '.' expiry '.' signature, the expiry in eight bytes. The
    keyed hash is a function given from outside. */
module Tokens {
  import opened GoTypes
  import opened Protocol

  const DOT: Byte := 46

  type Mac = Str -> Str

  /** What is signed. */
  function Signed(name: Str, expiry: Str): Str {
    name + [DOT] + expiry
  }

  function TokenBytes(name: Str, expiry: Str, mac: Mac): Str {
    Signed(name, expiry) + [DOT] + mac(Signed(name, expiry))
  }

  /** Zero stands for no expiration; the sum wraps around as 64-bit addition does. */
  function Expiry(ttlSeconds: Int64, now: Int64): Int64 {
    if ttlSeconds > 0 then WrapInt64(now + ttlSeconds) else 0
  }

  method GenerateToken(name: Str, ttlSeconds: Int64, now: Int64, mac: Mac) returns (token: array<Byte>)
    ensures fresh(token) && token[..] == TokenBytes(name, Int64Bytes(Expiry(ttlSeconds, now)), mac)
    ensures ttlSeconds <= 0 ==> NeverExpires(token[..], name, mac)
    ensures ttlSeconds > 0 && 0 < now + ttlSeconds < TWO_63 ==> ExpiresAfter(token[..], name, now + ttlSeconds, mac)
  {
    hide NeverExpires, ExpiresAfter;
    Lifetimes(name, ttlSeconds, now, mac);
    var expiryUnix: Int64 := 0;
    if ttlSeconds > 0 {
      expiryUnix := WrapInt64(now + ttlSeconds);
    }
    var expiryBytes := new Byte[8](_ => 0);
    WriteUint(expiryBytes, 0, 8, ToUint64(expiryUnix));
    ghost var e := Int64Bytes(Expiry(ttlSeconds, now));
    assert expiryBytes[..] == e;
    var dataToSign := new Byte[|name| + 1 + 8](_ => 0);
    FillSigned(dataToSign, name, expiryBytes[..]);
    assert dataToSign[..] == dataToSign[..|name| + 9];
    var signature := mac(dataToSign[..]);
    token := new Byte[|name| + 1 + 8 + 1 + |signature|](_ => 0);
    FillSigned(token, name, expiryBytes[..]);
    var pos := |name| + 9;
    token[pos] := DOT;
    pos := pos + 1;
    assert token[..pos] == Signed(name, e) + [DOT];
    WriteBytes(token, pos, signature);
  }

  /** name '.' expiry at the front of a buffer. */
  method FillSigned(buf: array<Byte>, name: Str, expiry: Str)
    requires |expiry| == 8 && buf.Length >= |name| + 9
    modifies buf
    ensures buf[..|name| + 9] == Signed(name, expiry)
  {
    var pos := 0;
    WriteBytes(buf, pos, name);
    pos := pos + |name|;
    buf[pos] := DOT;
    pos := pos + 1;
    assert buf[..pos] == name + [DOT];
    WriteBytes(buf, pos, expiry);
    assert buf[..pos + 8] == (name + [DOT]) + expiry;
  }

  /** The tokens that are good for a bucket at a moment. */
  ghost predicate Accepts(token: Str, expected: Str, now: Int64, mac: Mac) {
    && expected != [] && DOT !in expected
    && exists expiry: Str :: GoodFor(token, expected, expiry, now, mac)
  }

  ghost predicate GoodFor(token: Str, expected: Str, expiry: Str, now: Int64, mac: Mac) {
    && |expiry| == 8 && DOT !in expiry
    && token == TokenBytes(expected, expiry, mac)
    && !(Int64Of(expiry) > 0 && now > Int64Of(expiry))
  }

  /** The signature of an acceptable token covers everything before it: position by position, what a
      token good for a bucket is. */
  lemma AcceptsIff(token: Str, expected: Str, now: Int64, mac: Mac)
    ensures Accepts(token, expected, now, mac) <==>
            && expected != [] && DOT !in expected
            && var n := |expected|;
            && |token| >= n + 10 && token[..n] == expected && token[n] == DOT && token[n + 9] == DOT
            && DOT !in token[n + 1..n + 9]
            && token[n + 10..] == mac(token[..n + 9])
            && !(0 < Int64Of(token[n + 1..n + 9]) < now)
  {
    hide Int64Of;
    var n := |expected|;
    if Accepts(token, expected, now, mac) {
      var expiry: Str :| GoodFor(token, expected, expiry, now, mac);
      assert token[..n] == expected && token[n + 1..n + 9] == expiry;
      assert token[..n + 9] == Signed(expected, expiry);
      assert token[n + 10..] == mac(Signed(expected, expiry));
    }
    if |token| >= n + 10 && token[..n] == expected && token[n] == DOT && token[n + 9] == DOT &&
       token[n + 10..] == mac(token[..n + 9]) {
      var expiry := token[n + 1..n + 9];
      assert token[..n + 9] == Signed(expected, expiry);
      assert token == token[..n + 9] + [DOT] + token[n + 10..];
      assert token == TokenBytes(expected, expiry, mac);
      assert DOT !in expiry && !(0 < Int64Of(expiry) < now) ==> GoodFor(token, expected, expiry, now, mac);
    }
  }

  /** The token is good for the bucket at every time, if a token can carry the name. */
  ghost predicate NeverExpires(token: Str, name: Str, mac: Mac) {
    name != [] && DOT !in name ==> forall at: Int64 :: Accepts(token, name, at, mac)
  }

  /** The token is good for the bucket up to this second and not later, if a token can carry both. */
  ghost predicate ExpiresAfter(token: Str, name: Str, last: Int64, mac: Mac) {
    name != [] && DOT !in name && DOT !in Int64Bytes(last) ==>
      forall at: Int64 :: Accepts(token, name, at, mac) <==> at <= last
  }

  ghost predicate NoDot(s: Str, from: int, to: int) {
    forall k :: from <= k < to && 0 <= k < |s| ==> s[k] != DOT
  }

  /** The first dot at or after from; -1 if there is none. */
  method FindDot(s: Str, from: nat) returns (at: int)
    requires from <= |s|
    ensures at == -1 ==> NoDot(s, from, |s|)
    ensures at != -1 ==> from <= at < |s| && s[at] == DOT && NoDot(s, from, at)
  {
    var i := from;
    while i < |s|
      invariant from <= i <= |s| && NoDot(s, from, i)
    {
      if s[i] == DOT {
        return i;
      }
      i := i + 1;
    }
    return -1;
  }

  /** The separators as ValidateToken finds them; without them no bucket accepts the token. */
  method Separators(token: Str) returns (firstSep: nat, secondSep: nat, found: bool)
    ensures found ==> Separated(token, firstSep, secondSep)
    ensures !found ==> forall expected, now, mac :: !Accepts(token, expected, now, mac)
  {
    hide Accepts, NoDot;
    firstSep, secondSep, found := 0, 0, false;
    var first := FindDot(token, 0);
    if first == -1 || first == 0 {
      forall expected, now, mac
        ensures !Accepts(token, expected, now, mac)
      {
        NoGoodToken(token, expected, now, mac);
      }
      return;
    }
    var second := FindDot(token, first + 1);
    if second == -1 || second - first != 9 {
      forall expected, now, mac
        ensures !Accepts(token, expected, now, mac)
      {
        BadSeparators(token, expected, now, mac, first, second);
      }
      return;
    }
    return first, second, true;
  }

  ghost predicate Separated(token: Str, firstSep: nat, secondSep: nat) {
    && 0 < firstSep < secondSep < |token| && secondSep == firstSep + 9
    && token[firstSep] == DOT && NoDot(token, 0, firstSep)
    && token[secondSep] == DOT && NoDot(token, firstSep + 1, secondSep)
  }

  method ValidateToken(token: Str, expected: Str, now: Int64, mac: Mac) returns (ok: bool)
    ensures ok <==> Accepts(token, expected, now, mac)
  {
    hide Accepts, NoDot, Signed, Int64Of;
    NoGoodToken(token, expected, now, mac);
    if token == [] || expected == [] {
      return false;
    }
    var firstSep, secondSep, found := Separators(token);
    if !found {
      return false;
    }
    OnlyReading(token, expected, now, mac, firstSep, secondSep);
    ok := CheckParts(token[..firstSep], token[firstSep + 1..secondSep], token[secondSep + 1..], expected, now, mac);
  }

  /** The comparisons of ValidateToken, in their order. */
  method CheckParts(name: Str, expiry: Str, provided: Str, expected: Str, now: Int64, mac: Mac) returns (ok: bool)
    requires |expiry| == 8
    ensures ok <==>
              name == expected && !(Int64Of(expiry) > 0 && now > Int64Of(expiry)) &&
              provided == mac(Signed(expected, expiry))
  {
    if name != expected {
      return false;
    }
    if Int64Of(expiry) > 0 && now > Int64Of(expiry) {
      return false;
    }
    var dataToSign := new Byte[|name| + 1 + 8](_ => 0);
    FillSigned(dataToSign, name, expiry);
    assert dataToSign[..] == dataToSign[..|name| + 9];
    return provided == mac(dataToSign[..]);
  }

  /** Where the separators of a good token are. */
  lemma GoodShape(token: Str, expected: Str, expiry: Str, now: Int64, mac: Mac)
    requires GoodFor(token, expected, expiry, now, mac)
    ensures var n := |expected|;
            |token| >= n + 10 && token[..n] == expected && token[n] == DOT && token[n + 1..n + 9] == expiry &&
            token[n + 9] == DOT && token[n + 10..] == mac(Signed(expected, expiry))
    ensures DOT !in expected ==> NoDot(token, 0, |expected|)
    ensures NoDot(token, |expected| + 1, |expected| + 9)
  {
    assert forall k :: 0 <= k < |expected| ==> token[k] == expected[k];
    assert forall k :: |expected| + 1 <= k < |expected| + 9 ==> token[k] == expiry[k - |expected| - 1];
  }

  lemma NoGoodToken(token: Str, expected: Str, now: Int64, mac: Mac)
    ensures token == [] || expected == [] ==> !Accepts(token, expected, now, mac)
    ensures NoDot(token, 0, |token|) ==> !Accepts(token, expected, now, mac)
    ensures token != [] && token[0] == DOT ==> !Accepts(token, expected, now, mac)
  {
    if Accepts(token, expected, now, mac) {
      var expiry :| GoodFor(token, expected, expiry, now, mac);
      GoodShape(token, expected, expiry, now, mac);
      assert token[0] == expected[0];
    }
  }

  /** Both separators of a good token are where the scan finds them. */
  lemma GoodSeparators(token: Str, expected: Str, expiry: Str, now: Int64, mac: Mac, firstSep: nat, secondSep: int)
    requires GoodFor(token, expected, expiry, now, mac) && DOT !in expected
    requires firstSep < |token| && token[firstSep] == DOT && NoDot(token, 0, firstSep)
    requires if secondSep == -1 then NoDot(token, firstSep + 1, |token|)
             else firstSep < secondSep < |token| && token[secondSep] == DOT && NoDot(token, firstSep + 1, secondSep)
    ensures firstSep == |expected| && secondSep == firstSep + 9
  {
    GoodShape(token, expected, expiry, now, mac);
  }

  lemma BadSeparators(token: Str, expected: Str, now: Int64, mac: Mac, firstSep: nat, secondSep: int)
    requires firstSep < |token| && token[firstSep] == DOT && NoDot(token, 0, firstSep)
    requires if secondSep == -1 then NoDot(token, firstSep + 1, |token|)
             else firstSep < secondSep < |token| && token[secondSep] == DOT && NoDot(token, firstSep + 1, secondSep) &&
                  secondSep - firstSep != 9
    ensures !Accepts(token, expected, now, mac)
  {
    if Accepts(token, expected, now, mac) {
      var expiry :| GoodFor(token, expected, expiry, now, mac);
      GoodSeparators(token, expected, expiry, now, mac, firstSep, secondSep);
    }
  }

  /** With the separators found there is one way to read the token. */
  lemma OnlyReading(token: Str, expected: Str, now: Int64, mac: Mac, firstSep: nat, secondSep: nat)
    requires Separated(token, firstSep, secondSep)
    ensures var expiry := token[firstSep + 1..secondSep];
            Accepts(token, expected, now, mac) <==>
              token[..firstSep] == expected && !(Int64Of(expiry) > 0 && now > Int64Of(expiry)) &&
              token[secondSep + 1..] == mac(Signed(expected, expiry))
  {
    var name, expiry := token[..firstSep], token[firstSep + 1..secondSep];
    assert token == name + [DOT] + expiry + [DOT] + token[secondSep + 1..];
    if Accepts(token, expected, now, mac) {
      var e :| GoodFor(token, expected, e, now, mac);
      GoodShape(token, expected, e, now, mac);
      GoodSeparators(token, expected, e, now, mac, firstSep, secondSep);
    }
    if name == expected && token[secondSep + 1..] == mac(Signed(expected, expiry)) && !(Int64Of(expiry) > 0 &&
      now > Int64Of(expiry)) {
      assert GoodFor(token, expected, expiry, now, mac);
    }
  }

  /** A generated token for a non-empty name is accepted for that name exactly if the name has no dot,
      none of the eight expiry bytes is a dot, and it has not expired. */
  lemma GeneratedAcceptedIff(name: Str, ttlSeconds: Int64, issued: Int64, now: Int64, mac: Mac)
    requires name != []
    ensures var expiry := Expiry(ttlSeconds, issued);
            Accepts(TokenBytes(name, Int64Bytes(expiry), mac), name, now, mac) <==>
              DOT !in name && DOT !in Int64Bytes(expiry) && !(expiry > 0 && now > expiry)
  {
    var expiry := Expiry(ttlSeconds, issued);
    var token := TokenBytes(name, Int64Bytes(expiry), mac);
    Int64Exact(Int64Bytes(expiry), expiry);
    if Accepts(token, name, now, mac) {
      var e :| GoodFor(token, name, e, now, mac);
      GoodShape(token, name, e, now, mac);
      GeneratedShape(name, Int64Bytes(expiry), mac);
    }
    if DOT !in name && DOT !in Int64Bytes(expiry) && !(expiry > 0 && now > expiry) {
      assert GoodFor(token, name, Int64Bytes(expiry), now, mac);
    }
  }

  /** A token generated with no lifetime is accepted at every time, one with a lifetime exactly up to
      the time of issue plus the lifetime. */
  lemma Lifetimes(name: Str, ttlSeconds: Int64, issued: Int64, mac: Mac)
    ensures var token := TokenBytes(name, Int64Bytes(Expiry(ttlSeconds, issued)), mac);
            (ttlSeconds <= 0 ==> NeverExpires(token, name, mac)) &&
            (ttlSeconds > 0 && 0 < issued + ttlSeconds < TWO_63 ==>
               ExpiresAfter(token, name, issued + ttlSeconds, mac))
  {
    hide Accepts, Int64Bytes, TokenBytes;
    if name != [] {
      forall at: Int64
        ensures var expiry := Expiry(ttlSeconds, issued);
                Accepts(TokenBytes(name, Int64Bytes(expiry), mac), name, at, mac) <==>
                  DOT !in name && DOT !in Int64Bytes(expiry) && !(expiry > 0 && at > expiry)
      {
        GeneratedAcceptedIff(name, ttlSeconds, issued, at, mac);
      }
    }
    if ttlSeconds > 0 && 0 < issued + ttlSeconds < TWO_63 {
      SmallMod(issued + ttlSeconds, TWO_64);
    }
    ZeroHasNoDot();
  }

  lemma ZeroHasNoDot()
    ensures DOT !in Int64Bytes(0)
  {
    PutZero(8);
  }

  lemma {:induction false} PutZero(width: nat)
    ensures forall b :: b in PutUint(width, 0) ==> b == 0
  {
    if width > 0 {
      PutZero(width - 1);
    }
  }

  lemma GeneratedShape(name: Str, expiry: Str, mac: Mac)
    requires |expiry| == 8
    ensures TokenBytes(name, expiry, mac)[|name| + 1..|name| + 9] == expiry
  {
  }

  /** No token is good for two buckets. */
  lemma OneBucketPerToken(token: Str, a: Str, b: Str, now: Int64, later: Int64, mac: Mac)
    requires Accepts(token, a, now, mac) && Accepts(token, b, later, mac)
    ensures a == b
  {
    var e :| GoodFor(token, a, e, now, mac);
    var f :| GoodFor(token, b, f, later, mac);
    GoodShape(token, a, e, now, mac);
    GoodShape(token, b, f, later, mac);
    GoodSeparators(token, b, f, later, mac, |a|, |a| + 9);
  }

  /** A lifetime that takes the sum past 64 bits makes a token that never expires. */
  lemma ExpiryWrapsIff(ttlSeconds: Int64, now: Int64)
    requires ttlSeconds > 0 && now >= 0
    ensures Expiry(ttlSeconds, now) <= 0 <==> now + ttlSeconds >= TWO_63
  {
    SmallMod(now + ttlSeconds, TWO_64);
  }
}
