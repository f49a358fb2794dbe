/** The order in which a segment keeps its keys: Go's `<` on strings, which compares bytes
    from the left, and the binary search of package slices over it. */
module KeyOrder {
  import opened GoTypes

  predicate Less(a: Str, b: Str) {
    b != [] && (a == [] || a[0] < b[0] || (a[0] == b[0] && Less(a[1..], b[1..])))
  }

  /** The strings are alike up to position i, where a ends or has the smaller byte. */
  predicate SmallerFrom(a: Str, b: Str, i: nat) {
    i <= |a| && i < |b| && a[..i] == b[..i] && (i == |a| || a[i] < b[i])
  }

  lemma HeadsAgree(a: Str, b: Str, i: nat)
    requires i <= |a| && i <= |b| && a[..i] == b[..i]
    ensures i > 0 ==> a[0] == b[0]
  {
    assert i > 0 ==> a[..i][0] == a[0] && b[..i][0] == b[0];
  }

  lemma {:induction false} LessIff(a: Str, b: Str)
    ensures Less(a, b) <==> exists i: nat :: SmallerFrom(a, b, i)
  {
    if a == [] || b == [] || a[0] != b[0] {
      assert b != [] && (a == [] || a[0] < b[0]) ==> SmallerFrom(a, b, 0);
      forall i: nat | SmallerFrom(a, b, i)
        ensures i == 0
      {
        HeadsAgree(a, b, i);
      }
    } else {
      LessIff(a[1..], b[1..]);
      forall i: nat | SmallerFrom(a[1..], b[1..], i)
        ensures SmallerFrom(a, b, i + 1)
      {
        assert a[..i + 1] == [a[0]] + a[1..][..i] && b[..i + 1] == [b[0]] + b[1..][..i];
      }
      forall i: nat | SmallerFrom(a, b, i)
        ensures i > 0 && SmallerFrom(a[1..], b[1..], i - 1)
      {
        assert a[1..][..i - 1] == a[..i][1..] && b[1..][..i - 1] == b[..i][1..];
      }
    }
  }

  lemma {:induction false} LessIrreflexive(a: Str)
    ensures !Less(a, a)
  {
    if a != [] {
      LessIrreflexive(a[1..]);
    }
  }

  lemma {:induction false} LessTransitive(a: Str, b: Str, c: Str)
    requires Less(a, b) && Less(b, c)
    ensures Less(a, c)
  {
    if a != [] && a[0] == b[0] && b[0] == c[0] {
      LessTransitive(a[1..], b[1..], c[1..]);
    }
  }

  lemma {:induction false} LessTotal(a: Str, b: Str)
    ensures Less(a, b) || a == b || Less(b, a)
  {
    if a != [] && b != [] && a[0] == b[0] {
      LessTotal(a[1..], b[1..]);
      assert a == [a[0]] + a[1..] && b == [b[0]] + b[1..];
    }
  }

  ghost predicate StrictlySorted(keys: seq<Str>) {
    forall i, j :: 0 <= i < j < |keys| ==> Less(keys[i], keys[j])
  }

  /** Position i splits the keys around the target: smaller ones before it, none at or after it. */
  ghost predicate Splits(keys: seq<Str>, target: Str, i: int) {
    && 0 <= i <= |keys|
    && (forall k :: 0 <= k < i ==> Less(keys[k], target))
    && (forall k :: i <= k < |keys| ==> !Less(keys[k], target))
  }

  lemma SortedDistinct(keys: seq<Str>, i: int, j: int)
    requires StrictlySorted(keys) && 0 <= i < |keys| && 0 <= j < |keys| && keys[i] == keys[j]
    ensures i == j
  {
    LessIrreflexive(keys[i]);
  }

  /** A present target can only sit exactly at the split. */
  lemma SplitFinds(keys: seq<Str>, target: Str, i: int)
    requires StrictlySorted(keys) && Splits(keys, target, i)
    ensures target in keys <==> i < |keys| && keys[i] == target
    ensures forall k :: i <= k < |keys| && keys[k] != target ==> Less(target, keys[k])
  {
    LessIrreflexive(target);
    forall k | i <= k < |keys| && keys[k] != target
      ensures Less(target, keys[k])
    {
      LessTotal(keys[k], target);
    }
    if target in keys {
      var p :| 0 <= p < |keys| && keys[p] == target;
      if i < p {
        assert Less(keys[i], keys[p]);
      }
    }
  }

  /** One probe of the search keeps the answer between lo and hi. */
  lemma ProbeNarrows(keys: seq<Str>, target: Str, lo: int, hi: int)
    requires StrictlySorted(keys) && 0 <= lo < hi <= |keys|
    requires forall k :: 0 <= k < lo ==> Less(keys[k], target)
    requires forall k :: hi <= k < |keys| ==> !Less(keys[k], target)
    ensures var h := (lo + hi) / 2;
            lo <= h < hi &&
            (Less(keys[h], target) ==> forall k :: 0 <= k < h + 1 ==> Less(keys[k], target)) &&
            (!Less(keys[h], target) ==> forall k :: h <= k < |keys| ==> !Less(keys[k], target))
  {
    var h := (lo + hi) / 2;
    forall k | 0 <= k < h && Less(keys[h], target)
      ensures Less(keys[k], target)
    {
      LessTransitive(keys[k], keys[h], target);
    }
    forall k | h < k < |keys| && !Less(keys[h], target)
      ensures !Less(keys[k], target)
    {
      if Less(keys[k], target) {
        LessTransitive(keys[h], keys[k], target);
      }
    }
  }

  method BinarySearch(keys: seq<Str>, target: Str) returns (i: int, found: bool)
    requires StrictlySorted(keys)
    ensures Splits(keys, target, i)
    ensures found <==> target in keys
    ensures found ==> i < |keys| && keys[i] == target
  {
    i := 0;
    var j := |keys|;
    while i < j
      invariant 0 <= i <= j <= |keys|
      invariant forall k :: 0 <= k < i ==> Less(keys[k], target)
      invariant forall k :: j <= k < |keys| ==> !Less(keys[k], target)
    {
      ProbeNarrows(keys, target, i, j);
      var h := (i + j) / 2;
      if Less(keys[h], target) {
        i := h + 1;
      } else {
        j := h;
      }
    }
    SplitFinds(keys, target, i);
    found := i < |keys| && keys[i] == target;
  }
}
