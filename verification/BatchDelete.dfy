/** A batch delete on values: what is left of a segment and of an index while the keys of the
    batch are taken out, group by group, and what the change of the total size tells. */
module BatchDelete {
  import opened GoTypes
  import opened SegmentIndex

  const SEGMENTS := 64

  ghost predicate ViewOk<V>(v: seq<Seg<V>>, hash: HashFn) {
    |v| == SEGMENTS && IndexOk(v, hash)
  }

  ghost function MapOf<V>(v: seq<Seg<V>>, hash: HashFn): map<Str, V>
    requires ViewOk(v, hash)
  {
    SegmentIndex.Contents(v, hash)
  }

  ghost function BytesOf<V>(v: seq<Seg<V>>, hash: HashFn, size: (Str, V) -> int): int
    requires ViewOk(v, hash)
  {
    Weight(v, size)
  }

  /** Every one of these keys that is stored has size zero. */
  ghost predicate AllZero<V>(m: map<Str, V>, keys: set<Str>, size: (Str, V) -> int) {
    forall k :: k in keys && k in m ==> size(k, m[k]) == 0
  }

  /** What deleteBatch leaves: it publishes only when the sizes it removed add up to something. */
  ghost function AfterDelete<V>(m: map<Str, V>, keys: set<Str>, size: (Str, V) -> int): map<Str, V> {
    if AllZero(m, keys, size) then m else m - keys
  }

  lemma MinusNone<V>(m: map<Str, V>, keys: set<Str>)
    requires keys * m.Keys == {}
    ensures m - keys == m
  {
    forall k | k in m
      ensures k !in keys
    {
      assert k in keys ==> k in keys * m.Keys;
    }
  }

  lemma NoneDeleted<V>(v: seq<Seg<V>>, hash: HashFn, size: (Str, V) -> int)
    requires ViewOk(v, hash)
    ensures Progress(v, v, hash, {}, 0, size) && |v| == SEGMENTS
  {
    assert MapOf(v, hash) - {} == MapOf(v, hash);
  }

  /** What deleting these keys makes of a segment; lost is the total size of what went. */
  ghost predicate Shrunk<V>(a: Seg<V>, done: set<Str>, b: Seg<V>, lost: int, size: (Str, V) -> int) {
    && SegOk(a) && SegOk(b)
    && SegMap(b) == SegMap(a) - done
    && lost == SumSizes(a.keys, a.vals, size) - SumSizes(b.keys, b.vals, size)
    && lost >= 0
    && (lost == 0 <==> AllZero(SegMap(a), done, size))
  }

  lemma ShrunkNone<V>(a: Seg<V>, size: (Str, V) -> int)
    requires SegOk(a)
    ensures Shrunk(a, {}, a, 0, size)
  {
    assert SegMap(a) - {} == SegMap(a);
  }

  lemma ShrunkMissing<V>(a: Seg<V>, done: set<Str>, b: Seg<V>, lost: int, k: Str, size: (Str, V) -> int)
    requires Shrunk(a, done, b, lost, size) && k !in b.keys
    ensures Shrunk(a, done + {k}, b, lost, size)
  {
    assert k !in SegMap(b);
    assert SegMap(a) - (done + {k}) == SegMap(a) - done;
  }

  lemma ShrunkFound<V>(a: Seg<V>, done: set<Str>, b: Seg<V>, lost: int, i: nat, size: (Str, V) -> int)
    requires Shrunk(a, done, b, lost, size) && i < |b.keys| && size(b.keys[i], b.vals[i]) >= 0
    ensures Shrunk(a, done + {b.keys[i]}, SegDelete(b, i), lost + size(b.keys[i], b.vals[i]), size)
    ensures b.keys[i] in SegMap(a) && b.keys[i] !in done
  {
    var k := b.keys[i];
    SegDeleteExact(b, i, size);
    SegMapAt(b, i);
    MinusTwice(SegMap(a), done, k);
    AllZeroAdd(SegMap(a), done, k, size);
  }

  lemma MinusTwice<V>(m: map<Str, V>, done: set<Str>, k: Str)
    ensures m - (done + {k}) == (m - done) - {k}
    ensures k in m - done ==> (m - done)[k] == m[k]
  {
  }

  lemma AllZeroAdd<V>(m: map<Str, V>, done: set<Str>, k: Str, size: (Str, V) -> int)
    requires k in m
    ensures AllZero(m, done + {k}, size) <==> AllZero(m, done, size) && size(k, m[k]) == 0
  {
  }

  /** Whether or not the key is there. */
  lemma ShrunkStep<V>(a: Seg<V>, done: set<Str>, b: Seg<V>, lost: int, k: Str, size: (Str, V) -> int)
    requires Shrunk(a, done, b, lost, size)
    requires forall i :: 0 <= i < |b.keys| && b.keys[i] == k ==> size(k, b.vals[i]) >= 0
    ensures SegOk(a) && SegOk(b)
    ensures k !in b.keys ==>
              Shrunk(a, done + {k}, b, lost, size) && (done + {k}) * SegMap(a).Keys == done * SegMap(a).Keys
    ensures forall i :: 0 <= i < |b.keys| && b.keys[i] == k ==>
              Shrunk(a, done + {k}, SegDelete(b, i), lost + size(k, b.vals[i]), size) && k in SegMap(a)
  {
    if k !in b.keys {
      ShrunkMissing(a, done, b, lost, k, size);
      assert k in SegMap(a) ==> k in done;
    }
    forall i | 0 <= i < |b.keys| && b.keys[i] == k
      ensures Shrunk(a, done + {k}, SegDelete(b, i), lost + size(k, b.vals[i]), size) && k in SegMap(a)
    {
      ShrunkFound(a, done, b, lost, i, size);
    }
  }

  lemma SegSize<V>(seg: Seg<V>)
    requires SegOk(seg)
    ensures |SegMap(seg)| == |seg.keys|
  {
    DistinctCount(seg.keys);
    assert SegMap(seg).Keys == AsSet(seg.keys);
    assert |SegMap(seg)| == |SegMap(seg).Keys|;
  }

  /** A segment gets shorter by the stored keys that were deleted, here with one more to go. */
  lemma ShrunkCount<V>(a: Seg<V>, done: set<Str>, b: Seg<V>, lost: int, i: nat, size: (Str, V) -> int)
    requires Shrunk(a, done, b, lost, size) && i < |b.keys|
    ensures |(done + {b.keys[i]}) * SegMap(a).Keys| == |a.keys| - |b.keys| + 1
  {
    hide SegMap, SegOk, SumSizes, AllZero;
    SegMapAt(b, i);
    SegSize(a);
    SegSize(b);
    OneMoreGone(SegMap(a), done, SegMap(b), b.keys[i]);
  }

  lemma OneMoreGone<V>(m: map<Str, V>, done: set<Str>, rest: map<Str, V>, k: Str)
    requires rest == m - done && k in rest
    ensures |(done + {k}) * m.Keys| == |m| - |rest| + 1
  {
    MinusSize(m, rest, done);
    assert k in m && k !in done;
    assert (done + {k}) * m.Keys == done * m.Keys + {k};
  }

  ghost predicate Deleted<V>(v: seq<Seg<V>>, w: seq<Seg<V>>, hash: HashFn, done: set<Str>) {
    && ViewOk(v, hash) && ViewOk(w, hash) && |v| == |w| == SEGMENTS
    && MapOf(w, hash) == MapOf(v, hash) - done
  }

  /** Putting a shrunken segment into the new index. */
  lemma GroupDeleted<V>(v: seq<Seg<V>>, w: seq<Seg<V>>, hash: HashFn, done: set<Str>,
                     si: nat, gone: set<Str>, seg: Seg<V>, lost: int, size: (Str, V) -> int)
    requires Deleted(v, w, hash, done) && si < SEGMENTS && w[si] == v[si]
    requires forall k :: k in gone ==> hash(k) % SEGMENTS == si
    requires Shrunk(v[si], gone, seg, lost, size)
    ensures Deleted(v, w[si := seg], hash, done + gone)
    ensures BytesOf(w[si := seg], hash, size) == BytesOf(w, hash, size) - lost
    ensures KeyTotal(w[si := seg]) == KeyTotal(w) - |v[si].keys| + |seg.keys|
  {
    ShrinkExact(w, hash, si, seg, gone);
    TotalsUpdate(w, si, seg, size);
    hide IndexOk, SegMap, KeyTotal, Weight, SegmentIndex.Contents;
    MinusBoth(MapOf(v, hash), done, gone);
  }

  lemma MinusBoth<V>(m: map<Str, V>, done: set<Str>, more: set<Str>)
    ensures (m - done) - more == m - (done + more)
  {
  }

  /** The new index after some keys went, and what delta has come to. */
  ghost predicate Progress<V>(v: seq<Seg<V>>, w: seq<Seg<V>>, hash: HashFn, done: set<Str>, delta: int,
                              size: (Str, V) -> int) {
    && |v| == |w| == SEGMENTS
    && Deleted(v, w, hash, done)
    && delta == BytesOf(w, hash, size) - BytesOf(v, hash, size)
    && delta <= 0
    && (delta == 0 <==> AllZero(MapOf(v, hash), done, size))
  }

  lemma ProgressOk<V>(v: seq<Seg<V>>, w: seq<Seg<V>>, hash: HashFn, done: set<Str>, delta: int, si: nat,
                      size: (Str, V) -> int)
    requires Progress(v, w, hash, done, delta, size) && si < SEGMENTS
    ensures |v| == |w| == SEGMENTS && SegOk(v[si]) && ViewOk(v, hash)
  {
  }

  /** Of the keys of one segment, the index stores those that the segment does. */
  lemma StoredOfGroup<V>(v: seq<Seg<V>>, hash: HashFn, si: nat, group: set<Str>)
    requires ViewOk(v, hash) && si < SEGMENTS == |v|
    requires forall k :: k in group ==> hash(k) % SEGMENTS == si
    ensures group * SegMap(v[si]).Keys == group * MapOf(v, hash).Keys
  {
    forall k | k in group
      ensures k in MapOf(v, hash) <==> k in SegMap(v[si])
    {
      ContentsAt(v, hash, k);
    }
  }

  lemma GroupProgress<V>(v: seq<Seg<V>>, w: seq<Seg<V>>, hash: HashFn, done: set<Str>, delta: int,
                      si: nat, gone: set<Str>, seg: Seg<V>, lost: int, size: (Str, V) -> int)
    requires Progress(v, w, hash, done, delta, size) && si < SEGMENTS && w[si] == v[si]
    requires forall k :: k in gone ==> hash(k) % SEGMENTS == si
    requires Shrunk(v[si], gone, seg, lost, size)
    ensures Progress(v, w[si := seg], hash, done + gone, delta - lost, size)
    ensures KeyTotal(w[si := seg]) == KeyTotal(w) - |v[si].keys| + |seg.keys|
  {
    GroupKeys(v, hash, done, si, gone, seg, lost, size);
    GroupDeleted(v, w, hash, done, si, gone, seg, lost, size);
    hide MapOf, BytesOf, AllZero, SegMap, Shrunk, KeyTotal, ViewOk;
  }

  lemma ProgressDone<V>(v: seq<Seg<V>>, w: seq<Seg<V>>, hash: HashFn, done: set<Str>, delta: int, size: (Str, V) -> int)
    requires Progress(v, w, hash, done, delta, size)
    ensures ViewOk(v, hash) && ViewOk(w, hash) && MapOf(w, hash) == MapOf(v, hash) - done
    ensures delta == BytesOf(w, hash, size) - BytesOf(v, hash, size)
    ensures delta == 0 <==> AllZero(MapOf(v, hash), done, size)
    ensures KeyTotal(v) - KeyTotal(w) == |done * MapOf(v, hash).Keys|
  {
    DeletedSize(v, w, hash, done);
    hide MapOf, BytesOf, AllZero, ViewOk;
  }

  /** Seen from the whole map, the keys of a group that are stored are those of its segment. */
  lemma GroupKeys<V>(v: seq<Seg<V>>, hash: HashFn, done: set<Str>, si: nat, gone: set<Str>, seg: Seg<V>, lost: int,
                     size: (Str, V) -> int)
    requires ViewOk(v, hash) && si < SEGMENTS == |v|
    requires forall k :: k in gone ==> hash(k) % SEGMENTS == si
    requires Shrunk(v[si], gone, seg, lost, size)
    ensures AllZero(MapOf(v, hash), done + gone, size) <==> AllZero(MapOf(v, hash), done, size) && lost == 0
    ensures lost >= 0
  {
    forall k | k in gone
      ensures k in MapOf(v, hash) <==> k in SegMap(v[si])
      ensures k in MapOf(v, hash) ==> MapOf(v, hash)[k] == SegMap(v[si])[k]
    {
      ContentsAt(v, hash, k);
    }
    assert AllZero(MapOf(v, hash), gone, size) <==> AllZero(SegMap(v[si]), gone, size);
    assert AllZero(MapOf(v, hash), done + gone, size) <==>
           AllZero(MapOf(v, hash), done, size) && AllZero(MapOf(v, hash), gone, size);
  }

  /** The number of keys of the new index. */
  lemma DeletedSize<V>(v: seq<Seg<V>>, w: seq<Seg<V>>, hash: HashFn, done: set<Str>)
    requires Deleted(v, w, hash, done)
    ensures KeyTotal(v) - KeyTotal(w) == |done * MapOf(v, hash).Keys|
  {
    ContentsSize(v, hash);
    ContentsSize(w, hash);
    hide ViewOk, KeyTotal, SegmentIndex.Contents;
    MinusSize(MapOf(v, hash), MapOf(w, hash), done);
  }

  lemma MinusSize<V>(m: map<Str, V>, rest: map<Str, V>, done: set<Str>)
    requires rest == m - done
    ensures |m| - |rest| == |done * m.Keys|
  {
    assert rest.Keys == m.Keys - done;
    assert m.Keys == (m.Keys - done) + (done * m.Keys);
    ApartCount(m.Keys - done, done * m.Keys);
    assert |rest| == |rest.Keys| && |m| == |m.Keys|;
  }

  /** A batch takes away its keys, whatever their order and however often they occur, if and only if
      it is not true that the empty key is the only one of them stored, with an empty value. */
  lemma DeleteTakesEffectIff<V>(m: map<Str, V>, keys: set<Str>, size: (Str, V) -> int)
    requires forall k :: k in m && size(k, m[k]) == 0 ==> k == []
    ensures AfterDelete(m, keys, size) == m - keys <==> !(keys * m.Keys == {[]} && size([], m[[]]) == 0)
  {
    if AllZero(m, keys, size) {
      forall k | k in keys * m.Keys
        ensures k == [] && size([], m[[]]) == 0
      {
      }
      if keys * m.Keys == {} {
        MinusNone(m, keys);
      } else {
        assert [] in keys * m.Keys;
        assert keys * m.Keys == {[]};
        assert [] in m && [] !in m - keys;
      }
    } else {
      var k :| k in keys && k in m && size(k, m[k]) != 0;
      assert k in keys * m.Keys;
    }
  }

  /** deleteBatch keeps an exact key count exact if and only if it takes its keys away. */
  lemma DeleteKeepsCountIff<V>(m: map<Str, V>, keys: set<Str>, size: (Str, V) -> int)
    ensures |m| - |keys * m.Keys| == |AfterDelete(m, keys, size)| <==> AfterDelete(m, keys, size) == m - keys
  {
    MinusSize(m, m - keys, keys);
    if keys * m.Keys == {} {
      MinusNone(m, keys);
    } else {
      var k :| k in keys * m.Keys;
      assert k in m && k !in m - keys;
    }
  }
}
