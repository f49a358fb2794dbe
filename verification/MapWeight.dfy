/** The total size of the entries of a map, and that the total an index keeps segment by segment,
    or a container shard by shard, is that of the map it stands for. */
module MapWeights {
  import opened GoTypes
  import opened SegmentIndex
  import opened BatchDelete
  import opened ShardModel

  ghost function MapWeight<V>(m: map<Str, V>, size: (Str, V) -> int): int
    decreases |m|
  {
    if m == map[] then 0 else
      assert m.Keys != {};
      var k :| k in m;
      Shorter(m, k);
      size(k, m[k]) + MapWeight(m - {k}, size)
  }

  lemma Shorter<V>(m: map<Str, V>, k: Str)
    requires k in m
    ensures |m - {k}| < |m|
  {
    assert (m - {k}).Keys == m.Keys - {k};
    assert |m - {k}| == |(m - {k}).Keys| && |m| == |m.Keys|;
  }

  /** Any key may be counted first. */
  lemma {:induction false} CountFirst<V>(m: map<Str, V>, size: (Str, V) -> int, k: Str)
    requires k in m
    ensures MapWeight(m, size) == size(k, m[k]) + MapWeight(m - {k}, size)
    decreases |m|
  {
    assert m.Keys != {};
    var j :| j in m && MapWeight(m, size) == size(j, m[j]) + MapWeight(m - {j}, size);
    if j != k {
      Shorter(m, j);
      Shorter(m, k);
      CountFirst(m - {j}, size, k);
      CountFirst(m - {k}, size, j);
      assert (m - {j}) - {k} == (m - {k}) - {j};
    }
  }

  lemma {:induction false} DisjointWeights<V>(a: map<Str, V>, b: map<Str, V>, size: (Str, V) -> int)
    requires a.Keys !! b.Keys
    ensures MapWeight(a + b, size) == MapWeight(a, size) + MapWeight(b, size)
    decreases |b|
  {
    if b == map[] {
      assert a + b == a;
    } else {
      assert b.Keys != {};
      var k :| k in b;
      hide MapWeight;
      UnionStep(a, b, k);
      Shorter(b, k);
      CountFirst(b, size, k);
      CountFirst(a + b, size, k);
      DisjointWeights(a, b - {k}, size);
    }
  }

  lemma UnionStep<V>(a: map<Str, V>, b: map<Str, V>, k: Str)
    requires a.Keys !! b.Keys && k in b
    ensures k in a + b && (a + b)[k] == b[k] && (a + b) - {k} == a + (b - {k}) && a.Keys !! (b - {k}).Keys
  {
    assert k !in a;
  }

  // ---------- Segments and indexes ----------

  lemma {:induction false} SegmentWeight<V>(seg: Seg<V>, size: (Str, V) -> int)
    requires SegOk(seg)
    ensures SumSizes(seg.keys, seg.vals, size) == MapWeight(SegMap(seg), size)
    decreases |seg.keys|
  {
    if seg.keys == [] {
      assert SegMap(seg) == map[];
    } else {
      SegDeleteExact(seg, 0, size);
      SegMapAt(seg, 0);
      SegmentWeight(SegDelete(seg, 0), size);
      CountFirst(SegMap(seg), size, seg.keys[0]);
    }
  }

  /** The part of the map that the first n segments hold. */
  ghost function FirstSegments<V>(idx: seq<Seg<V>>, hash: HashFn, n: nat): map<Str, V>
    requires IndexOk(idx, hash)
  {
    map k | k in Contents(idx, hash) && hash(k) % |idx| < n :: Contents(idx, hash)[k]
  }

  lemma NextSegment<V>(idx: seq<Seg<V>>, hash: HashFn, n: nat)
    requires IndexOk(idx, hash) && n < |idx|
    ensures FirstSegments(idx, hash, n).Keys !! SegMap(idx[n]).Keys
    ensures FirstSegments(idx, hash, n + 1) == FirstSegments(idx, hash, n) + SegMap(idx[n])
  {
    var a, b := FirstSegments(idx, hash, n + 1), FirstSegments(idx, hash, n) + SegMap(idx[n]);
    forall k
      ensures AgreeAt(a, b, k)
    {
      NextSegmentAt(idx, hash, n, k);
    }
    AgreeEverywhere(a, b);
    forall k | k in SegMap(idx[n])
      ensures k !in FirstSegments(idx, hash, n)
    {
      ContentsAt(idx, hash, k);
    }
  }

  lemma NextSegmentAt<V>(idx: seq<Seg<V>>, hash: HashFn, n: nat, k: Str)
    requires IndexOk(idx, hash) && n < |idx|
    ensures AgreeAt(FirstSegments(idx, hash, n + 1), FirstSegments(idx, hash, n) + SegMap(idx[n]), k)
  {
    FirstAt(idx, hash, n, k);
    FirstAt(idx, hash, n + 1, k);
    LivesAt(idx, hash, n, k);
    hide FirstSegments, SegmentIndex.Contents, SegMap, IndexOk;
  }

  lemma FirstAt<V>(idx: seq<Seg<V>>, hash: HashFn, n: nat, k: Str)
    requires IndexOk(idx, hash)
    ensures var m := FirstSegments(idx, hash, n);
            (k in m <==> k in Contents(idx, hash) && hash(k) % |idx| < n) && (k in m ==> m[k] == Contents(idx, hash)[k])
  {
  }

  lemma LivesAt<V>(idx: seq<Seg<V>>, hash: HashFn, n: nat, k: Str)
    requires IndexOk(idx, hash) && n < |idx|
    ensures k in SegMap(idx[n]) <==> k in Contents(idx, hash) && hash(k) % |idx| == n
    ensures k in SegMap(idx[n]) ==> Contents(idx, hash)[k] == SegMap(idx[n])[k]
  {
    ContentsAt(idx, hash, k);
  }

  lemma {:induction false} PrefixWeight<V>(idx: seq<Seg<V>>, hash: HashFn, size: (Str, V) -> int, n: nat)
    requires IndexOk(idx, hash) && n <= |idx|
    ensures AllOk(idx[..n]) && Weight(idx[..n], size) == MapWeight(FirstSegments(idx, hash, n), size)
  {
    if n == 0 {
      assert FirstSegments(idx, hash, 0) == map[];
    } else {
      var m := n - 1;
      PrefixWeight(idx, hash, size, m);
      NextSegment(idx, hash, m);
      SegmentWeight(idx[m], size);
      DisjointWeights(FirstSegments(idx, hash, m), SegMap(idx[m]), size);
      assert idx[..n][..m] == idx[..m];
    }
  }

  /** What an index adds up is the weight of its map. */
  lemma IndexWeight<V>(idx: seq<Seg<V>>, hash: HashFn, size: (Str, V) -> int)
    requires ViewOk(idx, hash)
    ensures BytesOf(idx, hash, size) == MapWeight(MapOf(idx, hash), size)
  {
    PrefixWeight(idx, hash, size, |idx|);
    assert idx[..|idx|] == idx;
    assert FirstSegments(idx, hash, |idx|) == MapOf(idx, hash);
  }

  // ---------- Shards ----------

  ghost function FirstShards<V>(parts: seq<map<Str, V>>, hash: HashFn, n: nat): map<Str, V>
    requires PartsOk(parts, hash)
  {
    map k | k in Whole(parts, hash) && hash(k) % |parts| < n :: Whole(parts, hash)[k]
  }

  lemma NextShard<V>(parts: seq<map<Str, V>>, hash: HashFn, n: nat)
    requires PartsOk(parts, hash) && n < |parts|
    ensures FirstShards(parts, hash, n).Keys !! parts[n].Keys
    ensures FirstShards(parts, hash, n + 1) == FirstShards(parts, hash, n) + parts[n]
  {
    var a, b := FirstShards(parts, hash, n + 1), FirstShards(parts, hash, n) + parts[n];
    forall k
      ensures AgreeAt(a, b, k)
    {
      WholeAt(parts, hash, k);
      assert k in parts[n] ==> hash(k) % |parts| == n;
    }
    AgreeEverywhere(a, b);
  }

  lemma NoShards<V>(parts: seq<map<Str, V>>, hash: HashFn, size: (Str, V) -> int)
    requires PartsOk(parts, hash)
    ensures MapWeight(FirstShards(parts, hash, 0), size) == 0
  {
    assert FirstShards(parts, hash, 0).Keys == {};
  }

  lemma {:induction false} ShardWeights<V>(parts: seq<map<Str, V>>, hash: HashFn, size: (Str, V) -> int,
      weights: seq<int>, n: nat)
    requires PartsOk(parts, hash) && n <= |parts| == |weights|
    requires forall i :: 0 <= i < |parts| ==> weights[i] == MapWeight(parts[i], size)
    ensures Sum(weights[..n]) == MapWeight(FirstShards(parts, hash, n), size)
  {
    hide PartsOk, FirstShards, Sum, MapWeight;
    SumNext(weights, if n == 0 then 0 else n - 1);
    if n == 0 {
      NoShards(parts, hash, size);
    } else {
      var m := n - 1;
      ShardWeights(parts, hash, size, weights, m);
      NextShard(parts, hash, m);
      DisjointWeights(FirstShards(parts, hash, m), parts[m], size);
    }
  }

  /** The weights of the shards add up to the weight of the whole. */
  lemma WholeWeight<V>(parts: seq<map<Str, V>>, hash: HashFn, size: (Str, V) -> int, weights: seq<int>)
    requires PartsOk(parts, hash) && |weights| == |parts|
    requires forall i :: 0 <= i < |parts| ==> weights[i] == MapWeight(parts[i], size)
    ensures Sum(weights) == MapWeight(Whole(parts, hash), size)
  {
    ShardWeights(parts, hash, size, weights, |parts|);
    assert weights[..|parts|] == weights;
    assert FirstShards(parts, hash, |parts|) == Whole(parts, hash);
  }
}
