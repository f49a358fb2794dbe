/** The shard container: a row of stores, a key living in the one its hash selects. First what that
    means for maps and for numbers, then the container itself. */
module ShardModel {
  import opened GoTypes
  import opened SegmentIndex
  import opened BatchDelete

  /** Every key lives in the shard its hash selects. */
  ghost predicate PartsOk<V>(parts: seq<map<Str, V>>, hash: HashFn) {
    |parts| > 0 && forall i, k :: 0 <= i < |parts| && k in parts[i] ==> hash(k) % |parts| == i
  }

  ghost function KeysIn<V>(parts: seq<map<Str, V>>, shards: set<int>): set<Str> {
    set i, k | i in shards && 0 <= i < |parts| && k in parts[i] :: k
  }

  function Indices(n: nat): (r: set<int>)
    ensures forall i :: i in r <==> 0 <= i < n
  {
    if n == 0 then {} else Indices(n - 1) + {n - 1}
  }

  /** The one map that the shards stand for. */
  ghost function Whole<V>(parts: seq<map<Str, V>>, hash: HashFn): map<Str, V>
    requires PartsOk(parts, hash)
  {
    map k | k in KeysIn(parts, Indices(|parts|)) :: parts[hash(k) % |parts|][k]
  }

  lemma WholeAt<V>(parts: seq<map<Str, V>>, hash: HashFn, k: Str)
    requires PartsOk(parts, hash)
    ensures var part := parts[hash(k) % |parts|];
            (k in Whole(parts, hash) <==> k in part) && (k in part ==> Whole(parts, hash)[k] == part[k])
  {
  }

  /** An operation on the shard of some keys is that operation on the whole. */
  lemma WholeUpdate<V>(parts: seq<map<Str, V>>, hash: HashFn, i: nat, put: map<Str, V>, gone: set<Str>)
    requires PartsOk(parts, hash) && i < |parts|
    requires forall k :: k in put || k in gone ==> hash(k) % |parts| == i
    ensures var after := parts[i := (parts[i] - gone) + put];
            PartsOk(after, hash) && Whole(after, hash) == (Whole(parts, hash) - gone) + put
  {
    var after := parts[i := (parts[i] - gone) + put];
    var r, m := Whole(after, hash), (Whole(parts, hash) - gone) + put;
    forall k
      ensures AgreeAt(r, m, k)
    {
      WholeAt(parts, hash, k);
      WholeAt(after, hash, k);
    }
    AgreeEverywhere(r, m);
  }

  lemma KeysInNext<V>(parts: seq<map<Str, V>>, hash: HashFn, done: set<int>, i: int)
    requires PartsOk(parts, hash) && 0 <= i < |parts| && i !in done
    ensures KeysIn(parts, done + {i}) == KeysIn(parts, done) + parts[i].Keys
    ensures KeysIn(parts, done) !! parts[i].Keys
  {
    forall k
      ensures k in KeysIn(parts, done + {i}) <==> k in KeysIn(parts, done) + parts[i].Keys
      ensures !(k in KeysIn(parts, done) && k in parts[i])
    {
      InShard(parts, hash, done, k);
      InShard(parts, hash, done + {i}, k);
    }
  }

  lemma NoKeys<V>(parts: seq<map<Str, V>>)
    ensures KeysIn(parts, {}) == {}
  {
  }

  lemma AllKeys<V>(parts: seq<map<Str, V>>, hash: HashFn, done: set<int>)
    requires PartsOk(parts, hash) && forall i :: 0 <= i < |parts| ==> i in done
    ensures KeysIn(parts, done) == Whole(parts, hash).Keys
  {
    forall k
      ensures k in KeysIn(parts, done) <==> k in Whole(parts, hash)
    {
      InShard(parts, hash, done, k);
      WholeAt(parts, hash, k);
    }
  }

  lemma InShard<V>(parts: seq<map<Str, V>>, hash: HashFn, shards: set<int>, k: Str)
    requires PartsOk(parts, hash)
    ensures var i := hash(k) % |parts|;
            (k in KeysIn(parts, shards) <==> i in shards && k in parts[i]) &&
            forall j :: 0 <= j < |parts| && k in parts[j] ==> j == i
  {
  }

  ghost function Sum(ns: seq<int>): int {
    if ns == [] then 0 else Sum(ns[..|ns| - 1]) + ns[|ns| - 1]
  }

  /** The shards share no key, so their sizes add up to the size of the whole. */
  lemma {:induction false} SizesAddUp<V>(parts: seq<map<Str, V>>, hash: HashFn, sizes: seq<int>, n: nat)
    requires PartsOk(parts, hash) && n <= |parts| == |sizes|
    requires forall i :: 0 <= i < |parts| ==> sizes[i] == |parts[i]|
    ensures Sum(sizes[..n]) == |KeysIn(parts, Indices(n))|
  {
    hide PartsOk, KeysIn, Sum, Indices;
    if n == 0 {
      NoKeys(parts);
      IndicesNext(0);
      SumNext(sizes, 0);
    } else {
      var m := n - 1;
      SizesAddUp(parts, hash, sizes, m);
      SumNext(sizes, m);
      IndicesNext(m);
      KeysInNext(parts, hash, Indices(m), m);
      ApartCount(KeysIn(parts, Indices(m)), parts[m].Keys);
    }
  }

  lemma {:induction false} SumChanged(ns: seq<int>, i: nat, d: int)
    requires i < |ns|
    ensures Sum(ns[i := ns[i] + d]) == Sum(ns) + d
  {
    var n := |ns| - 1;
    var r := ns[i := ns[i] + d];
    if i == n {
      assert r[..n] == ns[..n];
    } else {
      SumChanged(ns[..n], i, d);
      assert r[..n] == ns[..n][i := ns[i] + d];
    }
  }

  lemma {:induction false} SumOfZeros(ns: seq<int>)
    requires forall i :: 0 <= i < |ns| ==> ns[i] == 0
    ensures Sum(ns) == 0
  {
    if ns != [] {
      SumOfZeros(ns[..|ns| - 1]);
    }
  }

  lemma SumNext(ns: seq<int>, n: nat)
    ensures Sum(ns[..0]) == 0
    ensures n < |ns| ==> Sum(ns[..n + 1]) == Sum(ns[..n]) + ns[n]
  {
    if n < |ns| {
      assert ns[..n + 1][..n] == ns[..n];
    }
  }

  lemma IndicesNext(n: nat)
    ensures Indices(0) == {} && Indices(n + 1) == Indices(n) + {n} && n !in Indices(n)
  {
  }

  lemma WholeSize<V>(parts: seq<map<Str, V>>, hash: HashFn, sizes: seq<int>)
    requires PartsOk(parts, hash) && |sizes| == |parts|
    requires forall i :: 0 <= i < |parts| ==> sizes[i] == |parts[i]|
    ensures Sum(sizes) == |Whole(parts, hash)|
  {
    SizesAddUp(parts, hash, sizes, |parts|);
    assert sizes[..|parts|] == sizes;
    assert Whole(parts, hash).Keys == KeysIn(parts, Indices(|parts|));
  }

  // ---------- Shards and segments ----------

  lemma ModTwice(h: nat, n: nat, g: nat)
    requires g > 0 && n > 0 && n % g == 0
    ensures (h % n) % g == h % g
  {
    var q, x := h / n, h % n;
    var d, e, r := n / g, x / g, x % g;
    FactorOut(g, d, q, e, r);
    assert h == n * q + x;
    assert n == g * d + n % g;
    assert x == g * e + r;
    ModUnique(h, g, d * q + e, r);
  }

  lemma FactorOut(g: nat, d: nat, q: nat, e: nat, r: nat)
    ensures (g * d) * q + (g * e + r) == g * (d * q + e) + r
  {
  }

  /** Shard and segment of a key agree modulo every common divisor of their numbers, so modulo the
      greatest one. */
  lemma ShardMeetsSegment(hash: HashFn, key: Str, shardCount: nat, g: nat)
    requires shardCount > 0 && g > 0 && shardCount % g == 0 && SEGMENTS % g == 0
    ensures (hash(key) % shardCount) % g == (hash(key) % SEGMENTS) % g
  {
    ModTwice(hash(key), shardCount, g);
    ModTwice(hash(key), SEGMENTS, g);
  }

  /** So when 64 divides the number of shards, every shard uses one of its 64 segments only. */
  lemma OneSegmentPerShard<V>(idx: seq<Seg<V>>, hash: HashFn, shardCount: nat, shard: nat, j: nat)
    requires ViewOk(idx, hash) && shardCount > 0 && shardCount % SEGMENTS == 0
    requires forall k :: k in MapOf(idx, hash) ==> hash(k) % shardCount == shard
    requires j < SEGMENTS && j != shard % SEGMENTS
    ensures idx[j].keys == []
  {
    hide IndexOk, MapOf;
    if |idx[j].keys| > 0 {
      OtherSegment(idx, hash, idx[j].keys[0], shardCount, j);
    }
  }

  lemma OtherSegment<V>(idx: seq<Seg<V>>, hash: HashFn, k: Str, shardCount: nat, j: nat)
    requires ViewOk(idx, hash) && shardCount > 0 && shardCount % SEGMENTS == 0 && j < SEGMENTS && k in idx[j].keys
    ensures k in MapOf(idx, hash) && j == (hash(k) % shardCount) % SEGMENTS
  {
    hide IndexOk, MapOf;
    KeyInSegment(idx, hash, k, j);
    ShardMeetsSegment(hash, k, shardCount, SEGMENTS);
  }

  lemma KeyInSegment<V>(idx: seq<Seg<V>>, hash: HashFn, k: Str, j: nat)
    requires ViewOk(idx, hash) && j < SEGMENTS && k in idx[j].keys
    ensures hash(k) % SEGMENTS == j && k in MapOf(idx, hash)
  {
    ContentsAt(idx, hash, k);
  }
}

module ShardContainers {
  import opened GoTypes
  import opened SegmentIndex
  import opened BatchDelete
  import opened Entries
  import opened CowStores
  import opened ShardModel
  import opened MapWeights
  import CM = CollectorModel

  /** What a store holds. */
  ghost function Held(s: COWIndexStore): map<Str, Entry>
    reads s, s.ptr
  {
    if ViewOk(s.ptr.view, s.hasher) then s.Contents() else map[]
  }

  ghost function HeldBy(shards: seq<COWIndexStore>): (r: seq<map<Str, Entry>>)
    reads shards
    reads set i | 0 <= i < |shards| :: shards[i].ptr
    ensures |r| == |shards| && forall i :: 0 <= i < |shards| ==> r[i] == Held(shards[i])
  {
    seq(|shards|, i requires 0 <= i < |shards| reads shards, set j | 0 <= j < |shards| :: shards[j].ptr =>
      Held(shards[i]))
  }

  /** A store none of whose objects changed is as it was. */
  twostate lemma Kept(s: COWIndexStore)
    requires old(s.Valid()) && unchanged(old(s.Footprint()))
    ensures s.Valid() && Held(s) == old(Held(s)) && s.Footprint() == old(s.Footprint()) && s.keyCount == old(s.keyCount)
  {
  }

  ghost predicate StoreOk(s: COWIndexStore, hasher: HashFn)
    reads s, s.Footprint()
  {
    s.Valid() && s.hasher == hasher
  }

  ghost predicate FreshStores(list: seq<COWIndexStore>)
    reads list
    reads set i | 0 <= i < |list| :: list[i].ptr
    reads set i, o | 0 <= i < |list| && o in list[i].Footprint() :: o
  {
    && (forall i :: 0 <= i < |list| ==> StoreOk(list[i], list[i].hasher))
    && (forall i :: 0 <= i < |list| ==> Held(list[i]) == map[] && list[i].keyCount == 0)
    && (forall i, j :: 0 <= i < j < |list| ==> list[i].Footprint() !! list[j].Footprint())
  }

  lemma NoStores()
    ensures FreshStores([])
  {
  }

  twostate lemma OneMoreStore(list: seq<COWIndexStore>, new s: COWIndexStore)
    requires old(FreshStores(list))
    requires s.Valid() && Held(s) == map[] && s.keyCount == 0
    requires fresh(s.Footprint())
    requires forall i :: 0 <= i < |list| ==> unchanged(old(list[i].Footprint()))
    ensures FreshStores(list + [s])
  {
    hide COWIndexStore.Valid, COWIndexStore.Contents;
    var both := list + [s];
    forall i | 0 <= i < |list|
      ensures StoreOk(both[i], both[i].hasher) && Held(both[i]) == map[] && both[i].keyCount == 0 &&
              both[i].Footprint() == old(list[i].Footprint())
    {
      assert old(StoreOk(list[i], list[i].hasher));
      Kept(list[i]);
    }
    StoreHolds(s);
    forall i, j | 0 <= i < j < |both|
      ensures both[i].Footprint() !! both[j].Footprint()
    {
      assert j < |list| ==> old(list[i].Footprint()) !! old(list[j].Footprint());
    }
  }

  twostate lemma StoresKept(list: seq<COWIndexStore>)
    requires old(FreshStores(list)) && forall i :: 0 <= i < |list| ==> unchanged(old(list[i].Footprint()))
    ensures FreshStores(list)
  {
    hide COWIndexStore.Valid, COWIndexStore.Contents;
    forall i | 0 <= i < |list|
      ensures StoreOk(list[i], list[i].hasher) && Held(list[i]) == map[] && list[i].keyCount == 0 &&
              list[i].Footprint() == old(list[i].Footprint())
    {
      assert old(StoreOk(list[i], list[i].hasher));
      Kept(list[i]);
    }
  }

  lemma StoreHolds(s: COWIndexStore)
    requires s.Valid()
    ensures ViewOk(s.ptr.view, s.hasher) && Held(s) == s.Contents()
  {
  }

  class ShardContainer {
    const shards: seq<COWIndexStore>
    const hasher: HashFn

    ghost predicate ShardOk(i: nat)
      requires i < |shards|
      reads shards[i], shards[i].Footprint()
    {
      StoreOk(shards[i], hasher)
    }

    /** The shards are valid stores that share nothing, and each holds keys of its own only. */
    ghost predicate Valid()
      reads shards
      reads set i | 0 <= i < |shards| :: shards[i].ptr
      reads set i, o | 0 <= i < |shards| && o in shards[i].Footprint() :: o
    {
      && |shards| > 0
      && (forall i :: 0 <= i < |shards| ==> ShardOk(i))
      && (forall i, j :: 0 <= i < j < |shards| ==> shards[i].Footprint() !! shards[j].Footprint())
      && PartsOk(HeldBy(shards), hasher)
    }

    /** The map the container stands for. */
    ghost function Contents(): map<Str, Entry>
      reads shards
      reads set i | 0 <= i < |shards| :: shards[i].ptr
    {
      if PartsOk(HeldBy(shards), hasher) then Whole(HeldBy(shards), hasher) else map[]
    }

    /** The key counts of the shards. */
    ghost function Counts(): (r: seq<int>)
      reads shards
      ensures |r| == |shards|
    {
      seq(|shards|, i requires 0 <= i < |shards| reads shards => shards[i].keyCount)
    }

    constructor (shardCount: int, hasher: HashFn, nowMs: int)
      ensures Valid() && Contents() == map[] && Sum(Counts()) == 0 && this.hasher == hasher
      ensures |shards| == if shardCount < 1 then 1 else shardCount
    {
      hide COWIndexStore.Valid, COWIndexStore.Contents, Held, FreshStores, Valid, Contents, HeldBy, PartsOk;
      var n := if shardCount < 1 then 1 else shardCount;
      NoStores();
      var list: seq<COWIndexStore> := [];
      for i := 0 to n
        invariant |list| == i && FreshStores(list) && forall j :: 0 <= j < i ==> list[j].hasher == hasher
      {
        label Before:
        var s := new COWIndexStore(hasher, nowMs);
        StoreHolds(s);
        OneMoreStore@Before(list, s);
        list := list + [s];
      }
      shards := list;
      this.hasher := hasher;
      label Built:
      new;
      StoresKept@Built(list);
      AllEmpty();
    }

    lemma AllEmpty()
      requires FreshStores(shards) && |shards| > 0 && forall i :: 0 <= i < |shards| ==> shards[i].hasher == hasher
      ensures Valid() && Contents() == map[] && Sum(Counts()) == 0
    {
      hide COWIndexStore.Valid, COWIndexStore.Contents, COWIndexStore.Footprint, Held;
      SumOfZeros(Counts());
      var parts := HeldBy(shards);
      forall k
        ensures k !in KeysIn(parts, Indices(|parts|))
      {
      }
    }

    /** getShard, as the number of the shard. */
    function GetShard(key: Str): (i: nat)
      requires |shards| > 0
      ensures i < |shards|
    {
      hasher(key) % |shards|
    }

    lemma HasShards()
      requires Valid()
      ensures |shards| > 0
    {
    }

    lemma ShardAt(i: nat)
      requires Valid() && i < |shards|
      ensures ShardOk(i) && shards[i].Valid() && shards[i].hasher == hasher && Held(shards[i]) == shards[i].Contents()
    {
      assert ShardOk(i);
    }

    lemma KeyAt(key: Str)
      requires Valid()
      ensures var i := GetShard(key);
              (key in Contents() <==> key in Held(shards[i])) &&
                (key in Contents() ==> Contents()[key] == Held(shards[i])[key])
    {
      WholeAt(HeldBy(shards), hasher, key);
    }

    /** A shard none of whose objects changed is as it was. */
    twostate lemma Undisturbed(j: int)
      requires 0 <= j < |shards| && old(ShardOk(j)) && unchanged(old(shards[j].Footprint()))
      ensures ShardOk(j) && Held(shards[j]) == old(Held(shards[j])) &&
              shards[j].Footprint() == old(shards[j].Footprint()) && shards[j].keyCount == old(shards[j].keyCount)
    {
      Kept(shards[j]);
    }

    method Exists(key: Str) returns (found: bool)
      requires Valid()
      ensures found <==> key in old(Contents())
    {
      hide COWIndexStore.Valid, COWIndexStore.Contents, COWIndexStore.Footprint, Valid, Contents;
      HasShards();
      var i := GetShard(key);
      KeyAt(key);
      ShardAt(i);
      found := shards[i].Exists(key);
    }

    /** What a call on shard i may write. */
    ghost function Writable(i: nat): set<object>
      requires i < |shards|
      reads shards[i]
    {
      var s := shards[i];
      {s, s.gc.wheel, s.gc.wheel.slots, s.gc.nearQueue}
    }

    twostate lemma StillApart(new a: int, new b: int)
      requires 0 <= a < |shards| && 0 <= b < |shards|
      requires old(shards[a].Footprint()) !! old(shards[b].Footprint()) &&
              shards[b].Footprint() == old(shards[b].Footprint())
      requires fresh(shards[a].Footprint() - old(shards[a].Footprint()))
      ensures shards[a].Footprint() !! shards[b].Footprint()
    {
      var s := shards[a];
      forall o | o in s.Footprint()
        ensures o !in shards[b].Footprint()
      {
        if o !in old(s.Footprint()) {
          assert o in s.Footprint() - old(s.Footprint());
        }
      }
    }

    twostate lemma OthersKept(new i: nat)
      requires old(Valid()) && i < |shards|
      requires forall j :: 0 <= j < |shards| && j != i ==> unchanged(old(shards[j].Footprint()))
      ensures forall j :: 0 <= j < |shards| && j != i ==>
                ShardOk(j) && Held(shards[j]) == old(Held(shards[j])) &&
                shards[j].Footprint() == old(shards[j].Footprint()) && shards[j].keyCount == old(shards[j].keyCount)
    {
      hide COWIndexStore.Valid, COWIndexStore.Contents, COWIndexStore.Footprint, Held, PartsOk, HeldBy;
      forall j | 0 <= j < |shards| && j != i
        ensures ShardOk(j) && Held(shards[j]) == old(Held(shards[j])) &&
                shards[j].Footprint() == old(shards[j].Footprint()) && shards[j].keyCount == old(shards[j].keyCount)
      {
        assert old(ShardOk(j));
        Undisturbed(j);
      }
    }

    twostate lemma OneCountChanged(new i: nat)
      requires i < |shards|
      requires forall j :: 0 <= j < |shards| && j != i ==> shards[j].keyCount == old(shards[j].keyCount)
      ensures Counts() == old(Counts())[i := shards[i].keyCount]
      ensures Sum(Counts()) == old(Sum(Counts())) + shards[i].keyCount - old(shards[i].keyCount)
    {
      SumChanged(old(Counts()), i, shards[i].keyCount - old(shards[i].keyCount));
    }

    twostate lemma AllStillApart(new i: nat)
      requires i < |shards|
      requires forall a, b :: 0 <= a < b < |shards| ==> old(shards[a].Footprint()) !! old(shards[b].Footprint())
      requires forall j :: 0 <= j < |shards| && j != i ==> shards[j].Footprint() == old(shards[j].Footprint())
      requires fresh(shards[i].Footprint() - old(shards[i].Footprint()))
      ensures forall a, b :: 0 <= a < b < |shards| ==> shards[a].Footprint() !! shards[b].Footprint()
    {
      hide COWIndexStore.Footprint;
      forall a, b | 0 <= a < b < |shards|
        ensures shards[a].Footprint() !! shards[b].Footprint()
      {
        assert old(shards[a].Footprint()) !! old(shards[b].Footprint());
        if b == i {
          StillApart(b, a);
        } else {
          StillApart(a, b);
        }
      }
    }

    twostate lemma OneMapChanged(new i: nat, new put: map<Str, Entry>, new gone: set<Str>)
      requires i < |shards| && old(PartsOk(HeldBy(shards), hasher))
      requires forall j :: 0 <= j < |shards| && j != i ==> Held(shards[j]) == old(Held(shards[j]))
      requires forall k :: k in put || k in gone ==> GetShard(k) == i
      requires Held(shards[i]) == (old(Held(shards[i])) - gone) + put
      ensures PartsOk(HeldBy(shards), hasher) && Contents() == (old(Contents()) - gone) + put
    {
      hide Held, Whole, PartsOk;
      var before, after := old(HeldBy(shards)), HeldBy(shards);
      assert after == before[i := (before[i] - gone) + put];
      WholeUpdate(before, hasher, i, put, gone);
    }

    /** A call that wrote to shard i only, and left it valid, leaves the container valid. */
    twostate lemma OneShardChanged(new i: nat, new put: map<Str, Entry>, new gone: set<Str>)
      requires old(Valid()) && i < |shards| && ShardOk(i)
      requires forall j :: 0 <= j < |shards| && j != i ==> unchanged(old(shards[j].Footprint()))
      requires fresh(shards[i].Footprint() - old(shards[i].Footprint()))
      requires forall k :: k in put || k in gone ==> GetShard(k) == i
      requires Held(shards[i]) == (old(Held(shards[i])) - gone) + put
      ensures Valid() && Contents() == (old(Contents()) - gone) + put
      ensures Counts() == old(Counts())[i := shards[i].keyCount]
      ensures Sum(Counts()) == old(Sum(Counts())) + shards[i].keyCount - old(shards[i].keyCount)
    {
      hide COWIndexStore.Valid, COWIndexStore.Contents, COWIndexStore.Footprint, Held, HeldBy, Whole, PartsOk, Counts,
        Sum, ShardOk, Contents;
      OthersKept(i);
      OneCountChanged(i);
      AllStillApart(i);
      OneMapChanged(i, put, gone);
    }

    /** panicked as in the store: the key is set, but not scheduled. */
    method Set(key: Str, entry: StorageEntry, cachedNow: int, clk: CM.Clock) returns (panicked: bool, ghost e: Entry)
      requires Valid() && CM.ClockOk(clk, shards[GetShard(key)].gc.wheel.tickMs)
      modifies Writable(GetShard(key))
      ensures Valid() && Contents() == old(Contents())[key := e]
      ensures e.Copy() == entry.(accessCount := 0, lastAccess := cachedNow)
      ensures Sum(Counts()) == old(Sum(Counts())) + if key in old(Contents()) then 0 else 1
      ensures shards[GetShard(key)].Scheduled(old(shards[GetShard(key)].gc.View()), key, entry, clk, panicked)
      ensures !panicked ==> CM.ScheduledAsAsked(shards[GetShard(key)].gc.View(), key, entry.ttl)
      ensures entry.ttl <= 0 ==> (panicked <==> CM.PastEnd(old(shards[GetShard(key)].gc.View()).near, key))
    {
      hide COWIndexStore.Valid, COWIndexStore.Contents, Valid, Contents, CM.ClockOk, Held, HeldBy, PartsOk, Counts,
        COWIndexStore.Scheduled, COWIndexStore.Footprint, CM.ScheduledAsAsked, CM.PastEnd, Sum, Entry.Copy;
      HasShards();
      var i := GetShard(key);
      Isolated(i);
      ShardAt(i);
      KeyAt(key);
      panicked, e := SetIn(shards[i], key, entry, cachedNow, clk);
      UpdateAsUnion(old(Held(shards[i])), key, e);
      UpdateAsUnion(old(Contents()), key, e);
      forall j | 0 <= j < |shards| && j != i
        ensures unchanged(old(shards[j].Footprint()))
      {
      }
      OneShardChanged(i, map[key := e], {});
    }

    static method SetIn(s: COWIndexStore, key: Str, entry: StorageEntry, cachedNow: int, clk: CM.Clock)
      returns (panicked: bool, ghost e: Entry)
      requires s.Valid() && CM.ClockOk(clk, s.gc.wheel.tickMs)
      modifies s, s.gc.wheel, s.gc.wheel.slots, s.gc.nearQueue
      ensures s.Valid() && fresh(s.Footprint() - old(s.Footprint())) && Held(s) == old(Held(s))[key := e]
      ensures e.Copy() == entry.(accessCount := 0, lastAccess := cachedNow)
      ensures s.keyCount == old(s.keyCount) + if key in old(Held(s)) then 0 else 1
      ensures s.Scheduled(old(s.gc.View()), key, entry, clk, panicked)
      ensures !panicked ==> CM.ScheduledAsAsked(s.gc.View(), key, entry.ttl)
      ensures entry.ttl <= 0 ==> (panicked <==> CM.PastEnd(old(s.gc.View()).near, key))
    {
      hide COWIndexStore.Valid, COWIndexStore.Contents, COWIndexStore.Footprint, COWIndexStore.Scheduled, CM.Schedule,
        CM.ScheduledAsAsked, CM.PastEnd, Held;
      StoreHolds(s);
      panicked := s.Set(key, entry, cachedNow, clk);
      StoreHolds(s);
      e := Held(s)[key];
    }

    /** Nothing of shard i belongs to another shard. */
    lemma Isolated(i: nat)
      requires Valid() && i < |shards|
      ensures Writable(i) + {shards[i].gc.coalescer} <= shards[i].Footprint()
      ensures forall j :: 0 <= j < |shards| && j != i ==> shards[i].Footprint() !! shards[j].Footprint()
      ensures forall j, o :: 0 <= j < |shards| && j != i && o in shards[j].Footprint() ==>
                o !in Writable(i) && allocated(o)
    {
      forall j | 0 <= j < |shards| && j != i
        ensures shards[i].Footprint() !! shards[j].Footprint()
      {
        if i < j {
          assert shards[i].Footprint() !! shards[j].Footprint();
        } else {
          assert shards[j].Footprint() !! shards[i].Footprint();
        }
      }
    }

    method Delete(key: Str) returns (panicked: bool)
      requires Valid()
      modifies Writable(GetShard(key))
      ensures Valid()
      ensures Contents() == if panicked then old(Contents()) else AfterDelete(old(Contents()), {key}, SizeOf)
      ensures Sum(Counts()) == old(Sum(Counts())) - if key in old(Contents()) then 1 else 0
      ensures panicked <==> key in old(Contents()) && CM.PastEnd(old(shards[GetShard(key)].gc.View()).near, key)
      ensures shards[GetShard(key)].CancelledOne(
                old(shards[GetShard(key)].gc.View()), key, key in old(Contents()), panicked)
    {
      hide COWIndexStore.Valid, COWIndexStore.Contents, Valid, Contents, Held, HeldBy, PartsOk, AfterDelete, Counts,
        COWIndexStore.CancelledOne, COWIndexStore.Footprint, Sum, CM.PastEnd;
      HasShards();
      var i := GetShard(key);
      Isolated(i);
      ShardAt(i);
      KeyAt(key);
      ghost var m, whole := Held(shards[i]), Contents();
      panicked := DeleteIn(shards[i], key);
      ghost var gone: set<Str> := if panicked || AllZero(m, {key}, SizeOf) then {} else {key};
      DeleteInShard(m, whole, key);
      MinusAsUnion(m, gone);
      MinusAsUnion(whole, gone);
      forall j | 0 <= j < |shards| && j != i
        ensures unchanged(old(shards[j].Footprint()))
      {
      }
      OneShardChanged(i, map[], gone);
    }

    static method DeleteIn(s: COWIndexStore, key: Str) returns (panicked: bool)
      requires s.Valid()
      modifies s, s.gc.wheel, s.gc.wheel.slots, s.gc.nearQueue
      ensures s.Valid() && fresh(s.Footprint() - old(s.Footprint()))
      ensures Held(s) == if panicked then old(Held(s)) else AfterDelete(old(Held(s)), {key}, SizeOf)
      ensures s.keyCount == old(s.keyCount) - if key in old(Held(s)) then 1 else 0
      ensures panicked <==> key in old(Held(s)) && CM.PastEnd(old(s.gc.View()).near, key)
      ensures s.CancelledOne(old(s.gc.View()), key, key in old(Held(s)), panicked)
    {
      hide COWIndexStore.Valid, COWIndexStore.Contents, COWIndexStore.Footprint, AfterDelete, Held,
        COWIndexStore.CancelledOne, CM.PastEnd;
      StoreHolds(s);
      panicked := s.Delete(key);
      StoreHolds(s);
    }

    /** A delete takes effect in the shard exactly if it takes effect in the whole. */
    lemma DeleteInShard(part: map<Str, Entry>, whole: map<Str, Entry>, key: Str)
      requires (key in whole <==> key in part) && (key in whole ==> whole[key] == part[key])
      ensures AllZero(whole, {key}, SizeOf) <==> AllZero(part, {key}, SizeOf)
      ensures part - {} == part && whole - {} == whole
      ensures AfterDelete(part, {key}, SizeOf) == if AllZero(part, {key}, SizeOf) then part else part - {key}
      ensures AfterDelete(whole, {key}, SizeOf) == if AllZero(whole, {key}, SizeOf) then whole else whole - {key}
    {
    }

    lemma HeldApart()
      requires Valid()
      ensures PartsOk(HeldBy(shards), hasher) && Contents() == Whole(HeldBy(shards), hasher)
    {
    }

    twostate lemma StillReadable(i: int)
      requires 0 <= i < |shards| && old(Valid()) && unchanged(old(shards[i].Footprint()))
      ensures shards[i].IndexValid() && shards[i].Contents() == old(HeldBy(shards))[i]
    {
      assert old(ShardOk(i));
      Undisturbed(i);
      hide COWIndexStore.IndexValid, COWIndexStore.Contents, COWIndexStore.Footprint;
    }

    /** The shards answer in any order. */
    method Keys() returns (all: seq<Str>)
      requires Valid()
      ensures multiset(all) == multiset(old(Contents()).Keys)
    {
      hide COWIndexStore.Valid, COWIndexStore.Contents, Valid, Held, HeldBy, KeysIn, Indices, Whole, PartsOk;
      ghost var parts := HeldBy(shards);
      HeldApart();
      var waiting := Indices(|shards|);
      ghost var done: set<int> := {};
      all := [];
      NoKeys(parts);
      while exists i: int :: i in waiting
        invariant forall i :: i in waiting <==> 0 <= i < |shards| && i !in done
        invariant multiset(all) == multiset(KeysIn(parts, done))
        decreases waiting
      {
        var i: int :| i in waiting;
        StillReadable(i);
        KeysInNext(parts, hasher, done, i);
        ApartMultiset(KeysIn(parts, done), parts[i].Keys);
        var keys := shards[i].Keys();
        all := all + keys;
        waiting := waiting - {i};
        done := done + {i};
      }
      AllKeys(parts, hasher, done);
    }

    /** Only the statistics of the entry and the coalescer of its shard change. */
    method Get(key: Str, now: int, cachedNow: int) returns (r: Option<StorageEntry>)
      requires Valid()
      modifies shards[GetShard(key)].gc.coalescer, shards[GetShard(key)].Cells(key)
      ensures Valid() && Contents() == old(Contents())
      ensures var pending := old(shards[GetShard(key)].gc.coalescer.pending);
              if key !in Contents() then r == None && shards[GetShard(key)].gc.coalescer.pending == pending
              else
                var (after, answer, doomed) := Read(old(Contents()[key].Copy()), now, cachedNow);
                r == answer && Contents()[key].Copy() == after &&
                shards[GetShard(key)].gc.coalescer.pending == pending + if doomed then {key} else {}
      ensures key in Contents() ==>
                var e := old(Contents()[key].Copy());
                AnsweredAs(e, now, cachedNow, Contents()[key].Copy(), r) &&
                shards[GetShard(key)].gc.coalescer.pending ==
                  old(shards[GetShard(key)].gc.coalescer.pending) + if Dooms(e, now) then {key} else {}
    {
      hide COWIndexStore.Valid, COWIndexStore.Contents, Valid, Contents, Held, HeldBy, PartsOk, ViewOk,
        COWIndexStore.Cells, AnsweredAs, Dooms;
      HasShards();
      var i := GetShard(key);
      Isolated(i);
      ShardAt(i);
      KeyAt(key);
      NoEntries(shards[i].Cells(key));
      r := shards[i].Get(key, now, cachedNow);
      StoreHolds(shards[i]);
      MinusAsUnion(old(Held(shards[i])), {});
      MinusAsUnion(old(Contents()), {});
      NothingGone(old(Held(shards[i])));
      NothingGone(old(Contents()));
      forall j | 0 <= j < |shards| && j != i
        ensures unchanged(old(shards[j].Footprint()))
      {
      }
      OneShardChanged(i, map[], {});
    }

    lemma NothingGone(m: map<Str, Entry>)
      ensures m - {} == m
    {
    }

    /** Entries are no part of any footprint. */
    lemma NoEntries(es: set<Entry>)
      requires Valid()
      ensures forall j, e :: 0 <= j < |shards| && e in es ==> e !in shards[j].Footprint()
    {
      forall j, e | 0 <= j < |shards| && e in es
        ensures e !in shards[j].Footprint()
      {
        assert ShardOk(j);
      }
    }

    /** The sum of what the shards count, which is exact if each of them is. */
    method Count() returns (total: int)
      requires Valid()
      ensures total == Sum(Counts())
      ensures (forall i :: 0 <= i < |shards| ==> shards[i].keyCount == |Held(shards[i])|) ==> total == |Contents()|
    {
      hide COWIndexStore.Valid, COWIndexStore.Contents, COWIndexStore.Footprint, Held, PartsOk, Whole, Sum;
      total := 0;
      SumNext(Counts(), 0);
      for i := 0 to |shards|
        invariant total == Sum(Counts()[..i])
      {
        SumNext(Counts(), i);
        total := total + shards[i].keyCount;
      }
      assert Counts()[..|shards|] == Counts();
      if forall i :: 0 <= i < |shards| ==> shards[i].keyCount == |Held(shards[i])| {
        WholeSize(HeldBy(shards), hasher, Counts());
      }
    }

    method Usage() returns (total: int)
      requires Valid()
      ensures total == MapWeight(Contents(), SizeOf)
    {
      hide COWIndexStore.Contents, COWIndexStore.Footprint, Held, PartsOk, Whole, MapWeight;
      total := 0;
      ghost var sizes := seq(|shards|, i requires 0 <= i < |shards| reads shards => shards[i].usedBytes);
      for i := 0 to |shards|
        invariant total == Sum(sizes[..i])
      {
        assert sizes[..i + 1][..i] == sizes[..i];
        total := total + shards[i].usedBytes;
      }
      assert sizes[..|shards|] == sizes;
      forall i | 0 <= i < |shards|
        ensures sizes[i] == MapWeight(HeldBy(shards)[i], SizeOf)
      {
        ShardWeight(i);
      }
      WholeWeight(HeldBy(shards), hasher, SizeOf, sizes);
    }

    lemma ShardWeight(i: nat)
      requires Valid() && i < |shards|
      ensures shards[i].usedBytes == MapWeight(Held(shards[i]), SizeOf)
    {
      ShardAt(i);
      hide MapWeight, Valid;
      IndexWeight(shards[i].ptr.view, shards[i].hasher, SizeOf);
    }
  }
}
