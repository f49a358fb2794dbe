/** An Index on values: a row of segments, each a pair of parallel lists of sorted keys and
    their values, a key living in the segment its hash selects. The abstract value of an
    index is one map; this module says what an edit of one segment does to that map, to the
    number of keys and to their total size. */
module SegmentIndex {
  import opened GoTypes
  import opened KeyOrder

  datatype Seg<+V> = Seg(keys: seq<Str>, vals: seq<V>)

  type HashFn = Str -> nat

  ghost predicate SegOk<V>(seg: Seg<V>) {
    |seg.keys| == |seg.vals| && StrictlySorted(seg.keys)
  }

  ghost function Pos(keys: seq<Str>, k: Str): (p: nat)
    requires k in keys
    ensures p < |keys| && keys[p] == k
  {
    var p: nat :| p < |keys| && keys[p] == k; p
  }

  ghost function SegMap<V>(seg: Seg<V>): map<Str, V>
    requires SegOk(seg)
  {
    map k | k in seg.keys :: seg.vals[Pos(seg.keys, k)]
  }

  lemma SegMapAt<V>(seg: Seg<V>, i: nat)
    requires SegOk(seg) && i < |seg.keys|
    ensures seg.keys[i] in SegMap(seg) && SegMap(seg)[seg.keys[i]] == seg.vals[i]
  {
    SortedDistinct(seg.keys, i, Pos(seg.keys, seg.keys[i]));
  }

  /** A map that agrees with the segment position by position is its map. */
  lemma SegMapIs<V>(seg: Seg<V>, m: map<Str, V>)
    requires SegOk(seg)
    requires forall k :: k in m ==> k in seg.keys
    requires forall i :: 0 <= i < |seg.keys| ==> seg.keys[i] in m && m[seg.keys[i]] == seg.vals[i]
    ensures SegMap(seg) == m
  {
  }

  // ---------- Edits of one segment ----------

  function InsertAt<T>(s: seq<T>, i: nat, x: T): (r: seq<T>)
    requires i <= |s|
    ensures |r| == |s| + 1
  {
    s[..i] + [x] + s[i..]
  }

  function RemoveAt<T>(s: seq<T>, i: nat): (r: seq<T>)
    requires i < |s|
    ensures |r| == |s| - 1
  {
    s[..i] + s[i + 1..]
  }

  lemma InsertAtIndex<T>(s: seq<T>, i: nat, x: T, j: nat)
    requires i <= |s| && j <= |s|
    ensures InsertAt(s, i, x)[j] == if j < i then s[j] else if j == i then x else s[j - 1]
  {
  }

  lemma RemoveAtIndex<T>(s: seq<T>, i: nat, j: nat)
    requires i < |s| && j < |s| - 1
    ensures RemoveAt(s, i)[j] == if j < i then s[j] else s[j + 1]
  {
  }

  lemma SortedRemove(keys: seq<Str>, i: nat)
    requires StrictlySorted(keys) && i < |keys|
    ensures StrictlySorted(RemoveAt(keys, i))
  {
    var r := RemoveAt(keys, i);
    forall a, b | 0 <= a < b < |r|
      ensures Less(r[a], r[b])
    {
      RemoveAtIndex(keys, i, a);
      RemoveAtIndex(keys, i, b);
    }
  }

  lemma SortedInsert(keys: seq<Str>, k: Str, i: int)
    requires StrictlySorted(keys) && Splits(keys, k, i) && k !in keys
    ensures StrictlySorted(InsertAt(keys, i, k))
  {
    SplitFinds(keys, k, i);
    var r := InsertAt(keys, i, k);
    forall a, b | 0 <= a < b < |r|
      ensures Less(r[a], r[b])
    {
      var a', b' := if a <= i then a else a - 1, if b <= i then b else b - 1;
      if a == i {
        assert r[b] == keys[b'];
      } else if b == i {
        assert r[a] == keys[a];
      } else {
        assert r[a] == keys[a'] && r[b] == keys[b'];
      }
    }
  }

  lemma SegInsert<V>(seg: Seg<V>, k: Str, i: int, v: V)
    requires SegOk(seg) && Splits(seg.keys, k, i) && k !in seg.keys
    ensures var r := Seg(InsertAt(seg.keys, i, k), InsertAt(seg.vals, i, v));
            SegOk(r) && SegMap(r) == SegMap(seg)[k := v]
  {
    SortedInsert(seg.keys, k, i);
    var r := Seg(InsertAt(seg.keys, i, k), InsertAt(seg.vals, i, v));
    var m := SegMap(seg)[k := v];
    forall j | 0 <= j < |r.keys|
      ensures r.keys[j] in m && m[r.keys[j]] == r.vals[j]
    {
      if j != i {
        var j' := if j < i then j else j - 1;
        assert r.keys[j] == seg.keys[j'];
        SegMapAt(seg, j');
      }
    }
    forall x | x in m
      ensures x in r.keys
    {
      if x == k {
        assert r.keys[i] == k;
      } else {
        var p := Pos(seg.keys, x);
        assert r.keys[if p < i then p else p + 1] == x;
      }
    }
    SegMapIs(r, m);
  }

  lemma SegReplace<V>(seg: Seg<V>, i: nat, v: V)
    requires SegOk(seg) && i < |seg.keys|
    ensures var r := Seg(seg.keys, seg.vals[i := v]);
            SegOk(r) && SegMap(r) == SegMap(seg)[seg.keys[i] := v]
  {
    var r := Seg(seg.keys, seg.vals[i := v]);
    var m := SegMap(seg)[seg.keys[i] := v];
    forall j | 0 <= j < |r.keys|
      ensures r.keys[j] in m && m[r.keys[j]] == r.vals[j]
    {
      SegMapAt(seg, j);
      if seg.keys[j] == seg.keys[i] {
        SortedDistinct(seg.keys, i, j);
      }
    }
    SegMapIs(r, m);
  }

  lemma SegRemove<V>(seg: Seg<V>, i: nat)
    requires SegOk(seg) && i < |seg.keys|
    ensures var r := Seg(RemoveAt(seg.keys, i), RemoveAt(seg.vals, i));
            SegOk(r) && SegMap(r) == SegMap(seg) - {seg.keys[i]}
  {
    var r := Seg(RemoveAt(seg.keys, i), RemoveAt(seg.vals, i));
    var m := SegMap(seg) - {seg.keys[i]};
    SortedRemove(seg.keys, i);
    forall j | 0 <= j < |r.keys|
      ensures r.keys[j] in m && m[r.keys[j]] == r.vals[j]
    {
      var j' := if j < i then j else j + 1;
      RemoveAtIndex(seg.keys, i, j);
      RemoveAtIndex(seg.vals, i, j);
      SegMapAt(seg, j');
      assert seg.keys[j'] != seg.keys[i] by {
        if seg.keys[j'] == seg.keys[i] {
          SortedDistinct(seg.keys, i, j');
        }
      }
    }
    forall x | x in m
      ensures x in r.keys
    {
      var p := Pos(seg.keys, x);
      RemoveAtIndex(seg.keys, i, if p < i then p else p - 1);
    }
    SegMapIs(r, m);
  }

  // ---------- Sizes ----------

  ghost function SumSizes<V>(keys: seq<Str>, vals: seq<V>, size: (Str, V) -> int): int
    requires |keys| == |vals|
  {
    if keys == [] then 0 else size(keys[0], vals[0]) + SumSizes(keys[1..], vals[1..], size)
  }

  lemma {:induction false} SumAppend<V>(k1: seq<Str>, v1: seq<V>, k2: seq<Str>, v2: seq<V>, size: (Str, V) -> int)
    requires |k1| == |v1| && |k2| == |v2|
    ensures SumSizes(k1 + k2, v1 + v2, size) == SumSizes(k1, v1, size) + SumSizes(k2, v2, size)
  {
    if k1 == [] {
      assert k1 + k2 == k2 && v1 + v2 == v2;
    } else {
      SumAppend(k1[1..], v1[1..], k2, v2, size);
      assert (k1 + k2)[1..] == k1[1..] + k2 && (v1 + v2)[1..] == v1[1..] + v2;
    }
  }

  lemma SumInsert<V>(keys: seq<Str>, vals: seq<V>, i: nat, k: Str, v: V, size: (Str, V) -> int)
    requires |keys| == |vals| && i <= |keys|
    ensures SumSizes(InsertAt(keys, i, k), InsertAt(vals, i, v), size) == SumSizes(keys, vals, size) + size(k, v)
  {
    var k1, k2, v1, v2 := keys[..i], keys[i..], vals[..i], vals[i..];
    SumOne(k, v, size);
    hide SumSizes, InsertAt;
    InsertParts(keys, i, k);
    InsertParts(vals, i, v);
    SumAppend(k1, v1, k2, v2, size);
    SumAppend(k1, v1, [k], [v], size);
    SumAppend(k1 + [k], v1 + [v], k2, v2, size);
  }

  lemma InsertParts<T>(s: seq<T>, i: nat, x: T)
    requires i <= |s|
    ensures s == s[..i] + s[i..] && InsertAt(s, i, x) == (s[..i] + [x]) + s[i..]
  {
  }

  lemma SumOne<V>(k: Str, v: V, size: (Str, V) -> int)
    ensures SumSizes([k], [v], size) == size(k, v)
  {
  }

  lemma SumRemove<V>(keys: seq<Str>, vals: seq<V>, i: nat, size: (Str, V) -> int)
    requires |keys| == |vals| && i < |keys|
    ensures SumSizes(RemoveAt(keys, i), RemoveAt(vals, i), size) == SumSizes(keys, vals, size) - size(keys[i], vals[i])
  {
    SumInsert(RemoveAt(keys, i), RemoveAt(vals, i), i, keys[i], vals[i], size);
    InsertUndoesRemove(keys, i);
    InsertUndoesRemove(vals, i);
  }

  lemma InsertUndoesRemove<T>(s: seq<T>, i: nat)
    requires i < |s|
    ensures InsertAt(RemoveAt(s, i), i, s[i]) == s
  {
    assert RemoveAt(s, i)[..i] == s[..i] && RemoveAt(s, i)[i..] == s[i + 1..];
  }

  lemma SumReplace<V>(keys: seq<Str>, vals: seq<V>, i: nat, v: V, size: (Str, V) -> int)
    requires |keys| == |vals| && i < |keys|
    ensures SumSizes(keys, vals[i := v], size) == SumSizes(keys, vals, size) - size(keys[i], vals[i]) + size(keys[i], v)
  {
    SumRemove(keys, vals, i, size);
    SumInsert(RemoveAt(keys, i), RemoveAt(vals, i), i, keys[i], v, size);
    InsertUndoesRemove(keys, i);
    forall j | 0 <= j < |vals|
      ensures InsertAt(RemoveAt(vals, i), i, v)[j] == vals[i := v][j]
    {
      InsertAtIndex(RemoveAt(vals, i), i, v, j);
      if j != i {
        RemoveAtIndex(vals, i, if j < i then j else j - 1);
      }
    }
    assert InsertAt(RemoveAt(vals, i), i, v) == vals[i := v];
  }

  lemma {:induction false} SumNonNegative<V>(keys: seq<Str>, vals: seq<V>, size: (Str, V) -> int)
    requires |keys| == |vals|
    requires forall k, v :: size(k, v) >= 0
    ensures SumSizes(keys, vals, size) >= 0
  {
    if keys != [] {
      SumNonNegative(keys[1..], vals[1..], size);
    }
  }

  // ---------- The whole index ----------

  ghost predicate IndexOk<V>(idx: seq<Seg<V>>, hash: HashFn) {
    && |idx| > 0
    && (forall i :: 0 <= i < |idx| ==> SegOk(idx[i]))
    && (forall i, k :: 0 <= i < |idx| && k in idx[i].keys ==> hash(k) % |idx| == i)
  }

  ghost function KeySet<V>(idx: seq<Seg<V>>): set<Str> {
    set i, k | 0 <= i < |idx| && k in idx[i].keys :: k
  }

  /** The abstract value of an index. */
  ghost function Contents<V>(idx: seq<Seg<V>>, hash: HashFn): map<Str, V>
    requires IndexOk(idx, hash)
  {
    map k | k in KeySet(idx) :: SegMap(idx[hash(k) % |idx|])[k]
  }

  lemma ContentsAt<V>(idx: seq<Seg<V>>, hash: HashFn, k: Str)
    requires IndexOk(idx, hash)
    ensures var seg := idx[hash(k) % |idx|];
            (k in Contents(idx, hash) <==> k in seg.keys) &&
            (k in seg.keys ==> Contents(idx, hash)[k] == SegMap(seg)[k])
  {
  }

  /** Replacing one segment changes the map on the keys of that segment only. */
  lemma ReplaceSegment<V>(idx: seq<Seg<V>>, hash: HashFn, si: nat, seg: Seg<V>, put: map<Str, V>, gone: set<Str>)
    requires IndexOk(idx, hash) && si < |idx| && SegOk(seg)
    requires forall k :: k in put || k in gone ==> hash(k) % |idx| == si
    requires SegMap(seg) == (SegMap(idx[si]) - gone) + put
    ensures IndexOk(idx[si := seg], hash)
    ensures Contents(idx[si := seg], hash) == (Contents(idx, hash) - gone) + put
  {
    ReplacedOk(idx, hash, si, seg, put, gone);
    var r, m := Contents(idx[si := seg], hash), (Contents(idx, hash) - gone) + put;
    forall k
      ensures AgreeAt(r, m, k)
    {
      ReplacedAt(idx, hash, si, seg, put, gone, k);
    }
    AgreeEverywhere(r, m);
  }

  ghost predicate AgreeAt<V>(a: map<Str, V>, b: map<Str, V>, k: Str) {
    (k in a <==> k in b) && (k in a ==> a[k] == b[k])
  }

  lemma AgreeEverywhere<V>(a: map<Str, V>, b: map<Str, V>)
    requires forall k :: AgreeAt(a, b, k)
    ensures a == b
  {
    forall k
      ensures k in a <==> k in b
      ensures k in a ==> a[k] == b[k]
    {
      assert AgreeAt(a, b, k);
    }
  }

  lemma ReplacedOk<V>(idx: seq<Seg<V>>, hash: HashFn, si: nat, seg: Seg<V>, put: map<Str, V>, gone: set<Str>)
    requires IndexOk(idx, hash) && si < |idx| && SegOk(seg)
    requires forall k :: k in put || k in gone ==> hash(k) % |idx| == si
    requires SegMap(seg) == (SegMap(idx[si]) - gone) + put
    ensures IndexOk(idx[si := seg], hash)
  {
    forall k | k in seg.keys
      ensures hash(k) % |idx| == si
    {
      assert k in SegMap(seg);
    }
  }

  lemma ReplacedAt<V>(idx: seq<Seg<V>>, hash: HashFn, si: nat, seg: Seg<V>, put: map<Str, V>, gone: set<Str>, k: Str)
    requires IndexOk(idx, hash) && si < |idx| && SegOk(seg)
    requires IndexOk(idx[si := seg], hash)
    requires hash(k) % |idx| != si ==> k !in put && k !in gone
    requires SegMap(seg) == (SegMap(idx[si]) - gone) + put
    ensures AgreeAt(Contents(idx[si := seg], hash), (Contents(idx, hash) - gone) + put, k)
  {
    ContentsAt(idx, hash, k);
    ContentsAt(idx[si := seg], hash, k);
    if hash(k) % |idx| == si {
      assert k in seg.keys <==> k in SegMap(seg);
      assert k in idx[si].keys <==> k in SegMap(idx[si]);
    }
  }

  /** Looking a key up by search in the segment its hash selects is looking it up in the map. */
  lemma LookupInContents<V>(idx: seq<Seg<V>>, hash: HashFn, k: Str, i: int)
    requires IndexOk(idx, hash)
    requires Splits(idx[hash(k) % |idx|].keys, k, i)
    ensures var seg := idx[hash(k) % |idx|];
            (i < |seg.keys| && seg.keys[i] == k <==> k in Contents(idx, hash)) &&
            (k in Contents(idx, hash) ==> i < |seg.vals| && Contents(idx, hash)[k] == seg.vals[i])
  {
    var seg := idx[hash(k) % |idx|];
    SplitFinds(seg.keys, k, i);
    ContentsAt(idx, hash, k);
    if k in seg.keys {
      SegMapAt(seg, i);
    }
  }

  ghost function KeyTotal<V>(idx: seq<Seg<V>>): int {
    if idx == [] then 0 else KeyTotal(idx[..|idx| - 1]) + |idx[|idx| - 1].keys|
  }

  ghost predicate AllOk<V>(idx: seq<Seg<V>>) {
    forall i :: 0 <= i < |idx| ==> SegOk(idx[i])
  }

  ghost function Weight<V>(idx: seq<Seg<V>>, size: (Str, V) -> int): int
    requires AllOk(idx)
  {
    if idx == [] then 0 else
      var last := idx[|idx| - 1];
      Weight(idx[..|idx| - 1], size) + SumSizes(last.keys, last.vals, size)
  }

  lemma {:induction false} TotalsUpdate<V>(idx: seq<Seg<V>>, si: nat, seg: Seg<V>, size: (Str, V) -> int)
    requires AllOk(idx) && si < |idx| && SegOk(seg)
    ensures AllOk(idx[si := seg])
    ensures KeyTotal(idx[si := seg]) == KeyTotal(idx) - |idx[si].keys| + |seg.keys|
    ensures Weight(idx[si := seg], size) ==
            Weight(idx, size) - SumSizes(idx[si].keys, idx[si].vals, size) + SumSizes(seg.keys, seg.vals, size)
  {
    var n := |idx| - 1;
    if si == n {
      assert idx[si := seg][..n] == idx[..n];
    } else {
      TotalsUpdate(idx[..n], si, seg, size);
      assert idx[si := seg][..n] == idx[..n][si := seg];
    }
  }

  lemma {:induction false} WeightNonNegative<V>(idx: seq<Seg<V>>, size: (Str, V) -> int)
    requires AllOk(idx) && forall k, v :: size(k, v) >= 0
    ensures Weight(idx, size) >= 0
  {
    if idx != [] {
      var n := |idx| - 1;
      WeightNonNegative(idx[..n], size);
      SumNonNegative(idx[n].keys, idx[n].vals, size);
    }
  }

  lemma {:induction false} EmptyTotals<V>(idx: seq<Seg<V>>, size: (Str, V) -> int)
    requires forall i :: 0 <= i < |idx| ==> idx[i] == Seg([], [])
    ensures AllOk(idx) && Weight(idx, size) == 0 && KeyTotal(idx) == 0
  {
    if idx != [] {
      EmptyTotals(idx[..|idx| - 1], size);
    }
  }

  lemma {:induction false} DistinctCount(keys: seq<Str>)
    requires StrictlySorted(keys)
    ensures |AsSet(keys)| == |keys|
  {
    if keys != [] {
      var n := |keys| - 1;
      DistinctCount(keys[..n]);
      forall i | 0 <= i < n
        ensures keys[i] != keys[n]
      {
        LessIrreflexive(keys[i]);
      }
      assert AsSet(keys) == AsSet(keys[..n]) + {keys[n]};
    }
  }

  lemma KeySetNext<V>(idx: seq<Seg<V>>, n: nat)
    requires n < |idx|
    ensures KeySet(idx[..n + 1]) == KeySet(idx[..n]) + AsSet(idx[n].keys)
  {
    forall k
      ensures k in KeySet(idx[..n + 1]) <==> k in KeySet(idx[..n]) + AsSet(idx[n].keys)
    {
      if k in idx[n].keys {
        assert k in idx[..n + 1][n].keys;
      }
      if k in KeySet(idx[..n]) {
        var i :| 0 <= i < n && k in idx[..n][i].keys;
        assert k in idx[..n + 1][i].keys;
      }
      if k in KeySet(idx[..n + 1]) && k !in idx[n].keys {
        var i :| 0 <= i < n + 1 && k in idx[..n + 1][i].keys;
        assert k in idx[..n][i].keys;
      }
    }
  }

  lemma KeySetsApart<V>(idx: seq<Seg<V>>, hash: HashFn, n: nat)
    requires IndexOk(idx, hash) && n < |idx|
    ensures KeySet(idx[..n]) !! AsSet(idx[n].keys)
  {
    forall k | k in KeySet(idx[..n])
      ensures k !in AsSet(idx[n].keys)
    {
      var i :| 0 <= i < n && k in idx[..n][i].keys;
      assert k in idx[i].keys;
      assert k in idx[n].keys ==> hash(k) % |idx| == n;
    }
  }

  lemma KeyTotalNext<V>(idx: seq<Seg<V>>, n: nat)
    requires n < |idx|
    ensures KeyTotal(idx[..n + 1]) == KeyTotal(idx[..n]) + |idx[n].keys|
  {
    assert idx[..n + 1][..n] == idx[..n];
  }

  lemma ApartCount(a: set<Str>, b: set<Str>)
    requires a !! b
    ensures |a + b| == |a| + |b|
  {
  }

  /** No key is in two segments, so the segment lengths add up to the number of keys. */
  lemma {:induction false} PrefixCount<V>(idx: seq<Seg<V>>, hash: HashFn, n: nat)
    requires IndexOk(idx, hash) && n <= |idx|
    ensures |KeySet(idx[..n])| == KeyTotal(idx[..n])
  {
    if n == 0 {
      assert KeySet(idx[..n]) == {};
    } else {
      var m := n - 1;
      PrefixCount(idx, hash, m);
      KeySetNext(idx, m);
      KeyTotalNext(idx, m);
      KeySetsApart(idx, hash, m);
      DistinctCount(idx[m].keys);
      ApartCount(KeySet(idx[..m]), AsSet(idx[m].keys));
    }
  }

  lemma ContentsSize<V>(idx: seq<Seg<V>>, hash: HashFn)
    requires IndexOk(idx, hash)
    ensures |Contents(idx, hash)| == KeyTotal(idx)
  {
    PrefixCount(idx, hash, |idx|);
    assert idx[..|idx|] == idx;
    assert Contents(idx, hash).Keys == KeySet(idx);
  }

  // ---------- The two edits a writer makes, on the whole index ----------

  /** What Set makes of a segment, i being where the search for the key ended. */
  function SegPut<V>(seg: Seg<V>, i: nat, key: Str, v: V): Seg<V>
    requires i <= |seg.keys| == |seg.vals|
  {
    if i < |seg.keys| && seg.keys[i] == key then Seg(seg.keys, seg.vals[i := v])
    else Seg(InsertAt(seg.keys, i, key), InsertAt(seg.vals, i, v))
  }

  function SegDelete<V>(seg: Seg<V>, i: nat): (r: Seg<V>)
    requires i < |seg.keys| == |seg.vals|
    ensures |r.keys| == |r.vals| == |seg.keys| - 1
  {
    Seg(RemoveAt(seg.keys, i), RemoveAt(seg.vals, i))
  }

  lemma SegPutExact<V>(seg: Seg<V>, i: int, key: Str, v: V, size: (Str, V) -> int)
    requires SegOk(seg) && Splits(seg.keys, key, i)
    ensures var r := SegPut(seg, i, key, v);
            SegOk(r) && SegMap(r) == SegMap(seg)[key := v] &&
            |r.keys| == |seg.keys| + (if key in seg.keys then 0 else 1) &&
            SumSizes(r.keys, r.vals, size) == SumSizes(seg.keys, seg.vals, size) + size(key, v) -
              (if key in seg.keys then size(key, seg.vals[i]) else 0)
  {
    SplitFinds(seg.keys, key, i);
    if key in seg.keys {
      SegReplace(seg, i, v);
      SumReplace(seg.keys, seg.vals, i, v, size);
    } else {
      SegInsert(seg, key, i, v);
      SumInsert(seg.keys, seg.vals, i, key, v, size);
    }
  }

  lemma UpdateAsUnion<V>(m: map<Str, V>, key: Str, v: V)
    ensures (m - {}) + map[key := v] == m[key := v]
  {
  }

  function IndexPut<V>(idx: seq<Seg<V>>, si: nat, i: nat, key: Str, v: V): seq<Seg<V>>
    requires si < |idx| && i <= |idx[si].keys| == |idx[si].vals|
  {
    idx[si := SegPut(idx[si], i, key, v)]
  }

  /** Set is map update. */
  lemma PutExact<V>(idx: seq<Seg<V>>, hash: HashFn, key: Str, i: int, v: V)
    requires IndexOk(idx, hash) && Splits(idx[hash(key) % |idx|].keys, key, i)
    ensures var r := IndexPut(idx, hash(key) % |idx|, i, key, v);
            IndexOk(r, hash) && Contents(r, hash) == Contents(idx, hash)[key := v]
  {
    var si := hash(key) % |idx|;
    var seg := idx[si];
    SegPutExact(seg, i, key, v, (k, v) => 0);
    UpdateAsUnion(SegMap(seg), key, v);
    ReplaceSegment(idx, hash, si, SegPut(seg, i, key, v), map[key := v], {});
    UpdateAsUnion(Contents(idx, hash), key, v);
  }

  /** The counters move by what Set adds and by what it replaces. */
  lemma PutTotals<V>(idx: seq<Seg<V>>, hash: HashFn, key: Str, i: int, v: V, size: (Str, V) -> int)
    requires IndexOk(idx, hash) && Splits(idx[hash(key) % |idx|].keys, key, i)
    ensures var r := IndexPut(idx, hash(key) % |idx|, i, key, v);
            var m := Contents(idx, hash);
            IndexOk(r, hash) &&
            KeyTotal(r) == KeyTotal(idx) + (if key in m then 0 else 1) &&
            Weight(r, size) == Weight(idx, size) + size(key, v) - (if key in m then size(key, m[key]) else 0)
  {
    var si := hash(key) % |idx|;
    PutExact(idx, hash, key, i, v);
    SegPutExact(idx[si], i, key, v, size);
    TotalsUpdate(idx, si, SegPut(idx[si], i, key, v), size);
    LookupInContents(idx, hash, key, i);
    ContentsAt(idx, hash, key);
  }

  lemma SegDeleteExact<V>(seg: Seg<V>, i: nat, size: (Str, V) -> int)
    requires SegOk(seg) && i < |seg.keys|
    ensures var r := SegDelete(seg, i);
            SegOk(r) && SegMap(r) == SegMap(seg) - {seg.keys[i]} &&
            |r.keys| == |seg.keys| - 1 &&
            SumSizes(r.keys, r.vals, size) == SumSizes(seg.keys, seg.vals, size) - size(seg.keys[i], seg.vals[i])
  {
    SegRemove(seg, i);
    SumRemove(seg.keys, seg.vals, i, size);
  }

  lemma MinusAsUnion<V>(m: map<Str, V>, gone: set<Str>)
    ensures (m - gone) + map[] == m - gone
  {
  }

  /** Replacing a segment by what is left of it after some keys went is removing them from the map. */
  lemma ShrinkExact<V>(idx: seq<Seg<V>>, hash: HashFn, si: nat, seg: Seg<V>, gone: set<Str>)
    requires IndexOk(idx, hash) && si < |idx| && SegOk(seg)
    requires forall k :: k in gone ==> hash(k) % |idx| == si
    requires SegMap(seg) == SegMap(idx[si]) - gone
    ensures IndexOk(idx[si := seg], hash) && Contents(idx[si := seg], hash) == Contents(idx, hash) - gone
  {
    MinusAsUnion(SegMap(idx[si]), gone);
    ReplaceSegment(idx, hash, si, seg, map[], gone);
    MinusAsUnion(Contents(idx, hash), gone);
  }

  // ---------- The keys of an index ----------

  /** The keys of an index in the order in which Keys lists them. */
  ghost function KeyList<V>(v: seq<Seg<V>>): seq<Str> {
    if v == [] then [] else KeyList(v[..|v| - 1]) + v[|v| - 1].keys
  }

  lemma KeyListExact<V>(v: seq<Seg<V>>, hash: HashFn)
    requires IndexOk(v, hash)
    ensures multiset(KeyList(v)) == multiset(Contents(v, hash).Keys)
  {
    KeyListPrefix(v, hash, |v|);
    assert v[..|v|] == v;
    assert KeySet(v) == Contents(v, hash).Keys;
  }

  lemma {:induction false} KeyListPrefix<V>(v: seq<Seg<V>>, hash: HashFn, n: nat)
    requires IndexOk(v, hash) && n <= |v|
    ensures multiset(KeyList(v[..n])) == multiset(KeySet(v[..n]))
  {
    hide IndexOk, KeySet, AsSet;
    if n == 0 {
      NoKeySet(v);
    } else {
      var m := n - 1;
      KeyListPrefix(v, hash, m);
      KeySetNext(v, m);
      KeySetsApart(v, hash, m);
      SortedAt(v, hash, m);
      SortedAsMultiset(v[m].keys);
      assert v[..n][..m] == v[..m];
      ApartMultiset(KeySet(v[..m]), AsSet(v[m].keys));
    }
  }

  lemma NoKeySet<V>(v: seq<Seg<V>>)
    ensures KeySet(v[..0]) == {} && KeyList(v[..0]) == []
  {
  }

  lemma SortedAt<V>(v: seq<Seg<V>>, hash: HashFn, i: nat)
    requires IndexOk(v, hash) && i < |v|
    ensures StrictlySorted(v[i].keys)
  {
  }

  lemma ApartMultiset(a: set<Str>, b: set<Str>)
    requires a !! b
    ensures multiset(a + b) == multiset(a) + multiset(b)
  {
  }

  lemma {:induction false} SortedAsMultiset(keys: seq<Str>)
    requires StrictlySorted(keys)
    ensures multiset(keys) == multiset(AsSet(keys))
  {
    if keys != [] {
      var n := |keys| - 1;
      SortedAsMultiset(keys[..n]);
      LessIrreflexive(keys[n]);
      assert keys[n] !in AsSet(keys[..n]);
      assert AsSet(keys) == AsSet(keys[..n]) + {keys[n]};
      ApartMultiset(AsSet(keys[..n]), {keys[n]});
      assert keys == keys[..n] + [keys[n]];
    }
  }
}
