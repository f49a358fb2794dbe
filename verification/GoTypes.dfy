/** Values of the Go language that the other modules share: bytes and strings, fixed-width
    integers, truncating division, and the big-endian byte order of encoding/binary. */
module GoTypes {

  type Byte = b: int | 0 <= b < 256

  /** A Go string or a read-only byte slice. */
  type Str = seq<Byte>

  datatype Option<+T> = None | Some(value: T)

  datatype Result<+T> = Ok(value: T) | Err

  const NANOS_PER_MILLI := 1_000_000

  const TWO_63 := 0x8000_0000_0000_0000
  const TWO_64 := 0x1_0000_0000_0000_0000

  /** A signed 64-bit integer. */
  type Int64 = n: int | -0x8000_0000_0000_0000 <= n < 0x8000_0000_0000_0000

  /** Go's `/` on signed integers truncates toward zero. */
  function TruncDiv(a: int, b: int): int
    requires b > 0
  {
    if a >= 0 then a / b else -((-a) / b)
  }

  /** The quotient without its fraction: the multiple of b nearest to a on the side of zero. */
  lemma TruncDivExact(a: int, b: int, q: int)
    requires b > 0
    ensures TruncDiv(a, b) == q <==> if a >= 0 then q * b <= a < (q + 1) * b else (q - 1) * b < a <= q * b
  {
    if a >= 0 {
      QuotientIff(a, b, q);
    } else {
      QuotientIff(-a, b, -q);
      assert -q * b == -(q * b) && (-q + 1) * b == -((q - 1) * b);
    }
  }

  lemma QuotientIff(a: nat, b: nat, q: int)
    requires b > 0
    ensures a / b == q <==> q * b <= a < (q + 1) * b
  {
    var p := a / b;
    assert a == b * p + a % b && (p + 1) * b == b * p + b;
    if q * b <= a < (q + 1) * b {
      LessFactor(b, q, p + 1);
      LessFactor(b, p, q + 1);
    }
  }

  /** A deadline in nanoseconds as whole milliseconds. */
  function DeadlineMs(expireAt: int): int {
    TruncDiv(expireAt, NANOS_PER_MILLI)
  }

  lemma TruncDivMonotone(a: int, c: int, b: int)
    requires b > 0 && a <= c
    ensures TruncDiv(a, b) <= TruncDiv(c, b)
  {
    if a >= 0 {
      DivMonotone(a, c, b);
    } else if c < 0 {
      DivMonotone(-c, -a, b);
    } else {
      DivMonotone(0, c, b);
      DivMonotone(0, -a, b);
    }
  }

  lemma DivMonotone(a: nat, c: nat, b: nat)
    requires b > 0 && a <= c
    ensures 0 <= a / b <= c / b
  {
    var q, r := a / b, c / b;
    assert a == b * q + a % b && c == b * r + c % b;
    assert b * q <= a && c < b * (r + 1);
    LessFactor(b, q, r + 1);
  }

  lemma LessFactor(d: nat, x: int, y: int)
    requires d * x < d * y
    ensures x < y
  {
    assert y <= x ==> d * y <= d * x;
  }

  /** Two's-complement reinterpretations: uint64(x) and int64(u). */
  function ToUint64(n: Int64): (u: nat)
    ensures u < TWO_64 && (u == n || u == n + TWO_64)
  {
    if n >= 0 then n else n + TWO_64
  }

  function ToInt64(u: nat): (n: Int64)
    requires u < TWO_64
    ensures ToUint64(n) == u
  {
    if u < TWO_63 then u else u - TWO_64
  }

  /** The value a wrapping 64-bit addition leaves for the mathematical sum n. */
  function WrapInt64(n: int): (r: Int64)
    ensures exists k: int :: n == r + k * TWO_64
    ensures -TWO_63 <= n < TWO_63 ==> r == n
  {
    assert n == n % TWO_64 + (n / TWO_64) * TWO_64;
    assert n == (n % TWO_64 - TWO_64) + (n / TWO_64 + 1) * TWO_64;
    ToInt64(n % TWO_64)
  }

  function AsSet(keys: seq<Str>): set<Str> {
    set k | k in keys
  }

  ghost predicate NoDuplicates(keys: seq<Str>) {
    forall i, j :: 0 <= i < j < |keys| ==> keys[i] != keys[j]
  }

  function Pow256(n: nat): (p: nat)
    ensures p > 0
  {
    if n == 0 then 1 else 256 * Pow256(n - 1)
  }

  /** The last `width` base-256 digits of v, most significant first. */
  function PutUint(width: nat, v: nat): (s: Str)
    ensures |s| == width
  {
    if width == 0 then [] else PutUint(width - 1, v / 256) + [v % 256]
  }

  /** The number whose base-256 digits are s, most significant first. */
  function Uint(s: Str): (v: nat)
    ensures v < Pow256(|s|)
  {
    if s == [] then 0 else 256 * Uint(s[..|s| - 1]) + s[|s| - 1]
  }

  lemma Widths()
    ensures Pow256(1) == 0x100 && Pow256(2) == 0x1_0000 && Pow256(4) == 0x1_0000_0000 && Pow256(8) == TWO_64
  {
    assert Pow256(2) == 256 * Pow256(1);
    assert Pow256(4) == 256 * (256 * Pow256(2));
    assert Pow256(6) == 256 * (256 * Pow256(4));
    assert Pow256(8) == 256 * (256 * Pow256(6));
  }

  lemma {:induction false} UintOfPut(width: nat, v: nat)
    ensures Uint(PutUint(width, v)) == v % Pow256(width)
  {
    if width > 0 {
      var s := PutUint(width, v);
      assert s[..|s| - 1] == PutUint(width - 1, v / 256);
      UintOfPut(width - 1, v / 256);
      ModSplit(v, Pow256(width - 1));
    }
  }

  lemma ModSplit(v: nat, p: nat)
    requires p > 0
    ensures v % (256 * p) == 256 * ((v / 256) % p) + v % 256
  {
    var q, r := (v / 256) / p, (v / 256) % p;
    assert v / 256 == q * p + r;
    assert v == 256 * (v / 256) + v % 256;
    var rest := 256 * r + v % 256;
    assert v == (256 * p) * q + rest by {
      assert 256 * (q * p + r) == (256 * p) * q + 256 * r;
    }
    assert 0 <= rest < 256 * p;
    ModUnique(v, 256 * p, q, rest);
  }

  lemma ModUnique(v: nat, d: nat, q: nat, r: nat)
    requires d > 0 && v == d * q + r && r < d
    ensures v % d == r && v / d == q
  {
    var q', r' := v / d, v % d;
    assert v == d * q' + r' && 0 <= r' < d;
    assert d * (q + 1) == d * q + d && d * (q' + 1) == d * q' + d;
    LessFactor(d, q', q + 1);
    LessFactor(d, q, q' + 1);
  }

  lemma {:induction false} PutOfUint(s: Str)
    ensures PutUint(|s|, Uint(s)) == s
  {
    if s != [] {
      PutOfUint(s[..|s| - 1]);
      assert Uint(s) / 256 == Uint(s[..|s| - 1]);
    }
  }

  lemma SmallMod(a: nat, d: nat)
    requires a < d
    ensures a % d == a
  {
  }

  lemma ModAtMost(a: nat, d: nat)
    requires d > 0
    ensures a % d <= a
  {
    if a < d {
      SmallMod(a, d);
    }
  }

  /** encoding/binary's bytes of uint64(n), and the number they stand for. */
  function Int64Bytes(n: Int64): (s: Str)
    ensures |s| == 8
  {
    PutUint(8, ToUint64(n))
  }

  function Int64Of(s: Str): Int64
    requires |s| == 8
  {
    Widths();
    ToInt64(Uint(s))
  }

  lemma Int64Exact(s: Str, n: Int64)
    requires |s| == 8
    ensures Int64Of(s) == n <==> s == Int64Bytes(n)
  {
    Widths();
    PutOfUint(s);
    UintOfPut(8, ToUint64(n));
    SmallMod(ToUint64(n), TWO_64);
  }
}
