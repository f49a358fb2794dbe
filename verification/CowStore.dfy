/** The copy-on-write store: an immutable-once-published index of 64 sorted segments behind one
    pointer, edited by copying a segment, changing the copy in place and publishing a new index. */
module CowStores {
  import opened GoTypes
  import opened KeyOrder
  import opened SegmentIndex
  import opened BatchDelete
  import opened Entries
  import opened MapWeights
  import opened GarbageCollectors
  import G = GoSlices
  import CM = CollectorModel
  import N = NearModel
  import W = WheelModel

  /** The cell that every snapshot shares by pointer; only the two statistics ever change. */
  class Entry {
    const value: Str
    const originalSize: int
    const ttl: int
    const createdAt: int
    const expiresAt: Option<int>
    const singleRead: bool
    var accessCount: int
    var lastAccess: int

    constructor (val: StorageEntry)
      ensures Copy() == val
    {
      value, originalSize, ttl, createdAt := val.value, val.originalSize, val.ttl, val.createdAt;
      expiresAt, singleRead := val.expiresAt, val.singleRead;
      accessCount, lastAccess := val.accessCount, val.lastAccess;
    }

    /** The value *e. */
    function Copy(): StorageEntry
      reads this
    {
      StorageEntry(value, originalSize, ttl, createdAt, expiresAt, singleRead, accessCount, lastAccess)
    }

    predicate IsExpired(now: int) {
      expiresAt.Some? && now > expiresAt.value
    }
  }

  function SizeOf(key: Str, e: Entry): (n: int)
    ensures n >= 0
    ensures n == 0 <==> key == [] && e.originalSize <= 0 && e.value == []
    ensures e.originalSize == |e.value| ==> n == |key| + |e.value|
    ensures e.originalSize > 0 ==> n == |key| + e.originalSize
  {
    EntrySize(key, e.originalSize, e.value)
  }

  datatype Segment = Segment(keys: G.Slice<Str>, vals: G.Slice<Entry>) {
    ghost predicate Valid() {
      keys.Valid() && vals.Valid()
    }

    ghost function View(): Seg<Entry>
      requires Valid()
      reads keys.data, vals.data
    {
      Seg(keys.Elems(), vals.Elems())
    }
  }

  /** view is the index as a value; repr holds every object the index is made of. */
  class Index {
    const segments: array<Segment>
    ghost var repr: set<object>
    ghost var view: seq<Seg<Entry>>

    ghost predicate Valid()
      reads this, repr
    {
      && this in repr && segments in repr
      && |view| == segments.Length
      && (forall o :: o in repr ==> !(o is Entry))
      && forall i :: 0 <= i < segments.Length ==> Holds(i)
    }

    ghost predicate Holds(i: nat)
      requires i < segments.Length == |view|
      requires segments in repr
      reads this, repr
    {
      var s := segments[i];
      && s.Valid()
      && s.keys.data in repr && s.vals.data in repr
      && s.keys.data as object != segments && s.vals.data as object != segments
      && view[i] == s.View()
    }

    constructor Empty()
      ensures Valid() && fresh(repr) && view == seq(SEGMENTS, _ => Seg([], []))
    {
      var noKeys, noVals := new Str[0], new Entry[0];
      segments := new Segment[SEGMENTS](_ => Segment(G.Slice(noKeys, 0), G.Slice(noVals, 0)));
      view := seq(SEGMENTS, _ => Seg([], []));
      new;
      repr := {this, segments, noKeys, noVals};
    }

    /** make([]Segment, n); copy(new.segments, old.segments) */
    constructor CopyOf(from: Index)
      requires from.Valid()
      ensures Valid() && fresh(this) && fresh(segments)
      ensures view == from.view && repr == from.repr + {this, segments}
    {
      segments := new Segment[from.segments.Length](i requires 0 <= i < from.segments.Length reads from.segments =>
        from.segments[i]);
      view := from.view;
      new;
      repr := from.repr + {this, segments};
      forall i | 0 <= i < segments.Length
        ensures Holds(i)
      {
        assert from.Holds(i);
      }
    }

    /** old.segments[si] */
    method At(si: nat) returns (seg: Segment)
      requires Valid() && si < |view|
      ensures seg.Valid() && seg.View() == view[si]
    {
      assert Holds(si);
      seg := segments[si];
    }

    /** new.segments[si] = ns */
    method SetSegment(si: nat, ns: Segment)
      requires Valid() && si < |view| && ns.Valid()
      requires ns.keys.data as object != segments && ns.vals.data as object != segments
      requires ns.keys.data as object != this && ns.vals.data as object != this
      modifies this, segments
      ensures Valid() && view == old(view)[si := ns.View()]
      ensures repr == old(repr) + {ns.keys.data, ns.vals.data}
    {
      ghost var was := segments[..];
      assert forall i :: 0 <= i < segments.Length ==> Holds(i);
      segments[si] := ns;
      view := view[si := ns.View()];
      repr := repr + {ns.keys.data, ns.vals.data};
      forall i | 0 <= i < segments.Length
        ensures Holds(i)
      {
        assert old(Holds(i));
      }
    }
  }

  /** The new index: a copy of the old one with one segment replaced. */
  method CopyWith(from: Index, si: nat, ns: Segment) returns (newIdx: Index)
    requires from.Valid() && si < |from.view| && ns.Valid()
    requires ns.keys.data !in from.repr && ns.vals.data !in from.repr
    ensures newIdx.Valid() && newIdx.view == from.view[si := ns.View()]
    ensures newIdx.repr == from.repr + {newIdx, newIdx.segments, ns.keys.data, ns.vals.data}
    ensures fresh(newIdx) && fresh(newIdx.segments)
  {
    newIdx := new Index.CopyOf(from);
    newIdx.SetSegment(si, ns);
  }

  lemma InRepr(idx: Index)
    requires idx.Valid()
    ensures idx in idx.repr
  {
  }

  class COWIndexStore {
    var ptr: Index
    var usedBytes: int
    var keyCount: int
    const hasher: HashFn
    const gc: GarbageCollector

    /** The published index is well formed, and none of its objects is part of the collector. */
    ghost predicate IndexValid()
      reads this, ptr, ptr.repr
    {
      ptr.Valid() && Apart(ptr.repr) && ViewOk(ptr.view, hasher)
    }

    /** No object of an index is the store or part of the collector. */
    ghost predicate Apart(repr: set<object>) {
      && this !in repr && gc !in repr && gc.wheel !in repr && gc.wheel.slots !in repr
      && gc.nearQueue !in repr && gc.coalescer !in repr
    }

    /** usedBytes is the total size of the published entries; every key on the wheel is stored. */
    ghost predicate Valid()
      reads this, ptr, ptr.repr, gc, gc.wheel, gc.wheel.slots, gc.nearQueue
    {
      && IndexValid()
      && usedBytes == BytesOf(ptr.view, hasher, SizeOf)
      && gc.Valid()
      && gc.wheel.keyIndex.Keys <= Contents().Keys
    }

    /** Every object the store is made of, except its entries. */
    ghost function Footprint(): set<object>
      reads this, ptr
    {
      {this, ptr, gc, gc.wheel, gc.wheel.slots, gc.nearQueue, gc.coalescer} + ptr.repr
    }

    /** Published indexes consist of new objects and of parts of older ones. */
    twostate lemma FootprintGrew()
      requires ptr in ptr.repr && fresh(ptr.repr - old(ptr.repr))
      ensures fresh(Footprint() - old(Footprint()))
    {
      forall o | o in Footprint() - old(Footprint())
        ensures fresh(o)
      {
        assert o in ptr.repr - old(ptr.repr);
      }
    }

    ghost function Contents(): map<Str, Entry>
      requires ViewOk(ptr.view, hasher)
      reads this, ptr
    {
      MapOf(ptr.view, hasher)
    }

    constructor (hasher: HashFn, nowMs: int)
      ensures Valid() && this.hasher == hasher && Contents() == map[] && keyCount == 0
      ensures gc.View() == CM.Collector(W.Wheel(seq(2048, _ => []), 0, 500, map[]), N.Near([], map[]), 2000, {})
      ensures fresh(Footprint())
    {
      EmptyIndex(seq(SEGMENTS, _ => Seg([], [])), hasher);
      ptr := new Index.Empty();
      usedBytes, keyCount := 0, 0;
      this.hasher := hasher;
      gc := new GarbageCollector(nowMs);
      new;
      assert gc.wheel.keyIndex == map[];
    }

    /** Loads the pointer again, possibly after another publication: only its length is used. */
    method SegmentIndexOf(key: Str) returns (si: nat)
      requires IndexValid()
      ensures si == hasher(key) % SEGMENTS
    {
      var t := ptr;
      si := hasher(key) % t.segments.Length;
    }

    /** What Set does to the collector: a Schedule, or nothing if that panics. */
    ghost predicate Scheduled(was: CM.Collector, key: Str, entry: StorageEntry, clk: CM.Clock, panicked: bool)
      reads gc, gc.wheel, gc.wheel.slots, gc.nearQueue, gc.coalescer
    {
      W.Shape(was.wheel) &&
      match CM.Schedule(was, key, entry.ttl, entry.createdAt, clk)
      case Ok(c) => !panicked && gc.View() == c
      case Err => panicked && gc.View() == was
    }

    method Set(key: Str, entry: StorageEntry, cachedNow: int, clk: CM.Clock) returns (panicked: bool)
      requires Valid() && CM.ClockOk(clk, gc.wheel.tickMs)
      modifies this, gc.wheel, gc.wheel.slots, gc.nearQueue
      ensures Valid() && fresh(Footprint() - old(Footprint()))
      ensures key in Contents() && fresh(Contents()[key]) && Contents() == old(Contents())[key := Contents()[key]]
      ensures Contents()[key].Copy() == entry.(accessCount := 0, lastAccess := cachedNow)
      ensures keyCount == old(keyCount) + if key in old(Contents()) then 0 else 1
      ensures Scheduled(old(gc.View()), key, entry, clk, panicked)
      ensures !panicked ==> CM.ScheduledAsAsked(gc.View(), key, entry.ttl)
      ensures entry.ttl <= 0 ==> (panicked <==> CM.PastEnd(old(gc.View()).near, key))
    {
      hide MapOf, BytesOf, ViewOk, W.WheelOk, Valid, Index.Valid, GarbageCollector.Valid, CM.Schedule, CM.CollectorOk,
        CM.ScheduledAsAsked, CM.PastEnd;
      ValidParts();
      GcOk();
      if CM.Schedule(gc.View(), key, entry.ttl, entry.createdAt, clk).Ok? {
        CM.ScheduleKeys(gc.View(), key, entry.ttl, entry.createdAt, clk);
      }
      var val := new Entry(entry.(accessCount := 0, lastAccess := cachedNow));
      PublishPut(key, val);
      panicked := gc.Schedule(key, entry.ttl, entry.createdAt, clk);
      PartsValid();
      FootprintGrew();
    }

    /** Set up to and including the update of usedBytes; the index published before stays as it was. */
    method PublishPut(key: Str, val: Entry)
      requires IndexValid() && usedBytes == BytesOf(ptr.view, hasher, SizeOf)
      modifies this`ptr, this`usedBytes, this`keyCount
      ensures IndexValid() && ViewOk(ptr.view, hasher) && usedBytes == BytesOf(ptr.view, hasher, SizeOf)
      ensures ptr in ptr.repr && fresh(ptr.repr - old(ptr.repr))
      ensures Contents() == old(Contents())[key := val]
      ensures keyCount == old(keyCount) + if key in old(Contents()) then 0 else 1
    {
      hide MapOf, BytesOf, ViewOk, Index.Valid;
      var newIdx, delta := BuildPut(key, val);
      InRepr(newIdx);
      ptr := newIdx;
      usedBytes := usedBytes + delta;
    }

    /** Set up to the publication: the new index, which shares all but one segment with the old. */
    method BuildPut(key: Str, val: Entry) returns (newIdx: Index, delta: int)
      requires IndexValid()
      modifies this`keyCount
      ensures newIdx.Valid() && Apart(newIdx.repr) && fresh(newIdx.repr - ptr.repr)
      ensures ViewOk(newIdx.view, hasher) && MapOf(newIdx.view, hasher) == Contents()[key := val]
      ensures BytesOf(newIdx.view, hasher, SizeOf) == BytesOf(ptr.view, hasher, SizeOf) + delta
      ensures keyCount == old(keyCount) + if key in Contents() then 0 else 1
    {
      hide MapOf, BytesOf, ViewOk, Index.Valid, SegOk, SegPut, Segment.View, Splits, IndexOk;
      var si := SegmentIndexOf(key);
      SegmentOk(ptr.view, hasher, si);
      var oldSeg := ptr.At(si);
      var ns, isNew;
      ghost var i;
      ns, i, delta, isNew := PutInCopy(oldSeg, key, val);
      if isNew {
        keyCount := keyCount + 1;
      }
      PutOutcome(ptr.view, hasher, key, i, val, delta, isNew);
      newIdx := CopyWith(ptr, si, ns);
    }

    /** panicked is the near queue's panic inside Cancel; then nothing has been published. cancelled
        are the keys that Cancel went through with, in their order. */
    method DeleteBatch(keys: seq<Str>) returns (panicked: bool, ghost cancelled: seq<Str>)
      requires Valid()
      modifies this, gc.wheel, gc.wheel.slots, gc.nearQueue
      ensures Valid() && fresh(Footprint() - old(Footprint()))
      ensures Contents() == if panicked then old(Contents()) else AfterDelete(old(Contents()), AsSet(keys), SizeOf)
      ensures !panicked ==> keyCount == old(keyCount) - |AsSet(keys) * old(Contents()).Keys|
      ensures Cancelled(old(gc.View()), AsSet(keys) * old(Contents()).Keys, cancelled, panicked)
      ensures CM.TurnsTaken(old(gc.View()), AsSet(keys) * old(Contents()).Keys, cancelled, panicked)
      ensures panicked ==> keyCount == old(keyCount) - |cancelled| - 1
      ensures !panicked ==> gc.wheel.keyIndex.Keys == old(gc.wheel.keyIndex.Keys) - AsSet(keys)
    {
      hide MapOf, BytesOf, ViewOk, W.WheelOk, Index.Valid, AllZero, Cancelled, CM.CollectorOk, GarbageCollector.Valid,
        AsSet, IndexValid, Valid, CM.TurnsTaken;
      ValidParts();
      if |keys| == 0 {
        AfterNone(Contents());
        NoneCancelled(old(Contents()).Keys);
        NoTurns(gc.View(), old(Contents()).Keys);
        return false, [];
      }
      var newIdx, delta;
      ghost var was := gc.View();
      GcOk();
      newIdx, delta, panicked, cancelled := DeleteGroups(keys);
      CancelledKeys(was, AsSet(keys) * old(Contents()).Keys, cancelled, panicked);
      CancelledTurns(was, AsSet(keys) * old(Contents()).Keys, cancelled, panicked);
      WheelMinus(old(gc.wheel.keyIndex.Keys), Contents().Keys, AsSet(keys));
      InRepr(newIdx);
      if !panicked && delta != 0 {
        PublishIndex(newIdx, delta);
      }
      PartsValid();
      FootprintGrew();
    }

    method PublishIndex(newIdx: Index, delta: int)
      requires newIdx.Valid() && Apart(newIdx.repr) && ViewOk(newIdx.view, hasher)
      modifies this`ptr, this`usedBytes
      ensures IndexValid() && ptr == newIdx && usedBytes == old(usedBytes) + delta
    {
      hide Index.Valid, ViewOk;
      ptr := newIdx;
      usedBytes := usedBytes + delta;
    }

    lemma ValidParts()
      requires Valid()
      ensures IndexValid() && ViewOk(ptr.view, hasher) && ptr in ptr.repr && gc.Valid()
      ensures usedBytes == BytesOf(ptr.view, hasher, SizeOf) && gc.wheel.keyIndex.Keys <= Contents().Keys
    {
    }

    lemma PartsValid()
      requires IndexValid() && ViewOk(ptr.view, hasher) && gc.Valid()
      requires usedBytes == BytesOf(ptr.view, hasher, SizeOf) && gc.wheel.keyIndex.Keys <= Contents().Keys
      ensures Valid()
    {
    }

    lemma GcOk()
      requires gc.Valid()
      ensures CM.CollectorOk(gc.View()) && W.Shape(gc.View().wheel)
    {
    }

    /** deleteBatch up to the decision to publish: builds the new index, group by group. */
    method DeleteGroups(keys: seq<Str>)
      returns (newIdx: Index, delta: int, panicked: bool, ghost cancelled: seq<Str>)
      requires Valid()
      modifies this`keyCount, gc.wheel, gc.wheel.slots, gc.nearQueue
      ensures IndexValid() && newIdx.Valid() && Apart(newIdx.repr) && fresh(newIdx.repr - ptr.repr)
      ensures gc.Valid() && Cancelled(old(gc.View()), AsSet(keys) * Contents().Keys, cancelled, panicked)
      ensures keyCount == old(keyCount) - |cancelled| - if panicked then 1 else 0
      ensures !panicked ==>
                ViewOk(newIdx.view, hasher) && MapOf(newIdx.view, hasher) == Contents() - AsSet(keys) &&
                delta == BytesOf(newIdx.view, hasher, SizeOf) - BytesOf(ptr.view, hasher, SizeOf) &&
                (delta == 0 <==> AllZero(Contents(), AsSet(keys), SizeOf)) &&
                keyCount == old(keyCount) - |AsSet(keys) * Contents().Keys|
    {
      hide MapOf, BytesOf, ViewOk, W.WheelOk, Index.Valid, AllZero, SegMap, Grouped, AsSet, Remaining, Progress,
        KeyTotal, Cancelled, GarbageCollector.Valid;
      ghost var v := ptr.view;
      newIdx := new Index.CopyOf(ptr);
      var group := GroupBySegment(keys);
      delta, panicked, cancelled := DeleteEachGroup(newIdx, keys, group, v);
      if !panicked {
        ProgressDone(v, newIdx.view, hasher, AsSet(keys), delta, SizeOf);
      }
    }

    /** The loop over the groups, which come in no particular order. */
    method DeleteEachGroup(newIdx: Index, ghost keys: seq<Str>, group: map<int, seq<Str>>, ghost v: seq<Seg<Entry>>)
      returns (delta: int, panicked: bool, ghost cancelled: seq<Str>)
      requires gc.Valid() && newIdx.Valid() && Apart(newIdx.repr) && newIdx.view == v
      requires ptr.Valid() && ptr.view == v && Apart(ptr.repr) && newIdx !in ptr.repr && newIdx.segments !in ptr.repr
      requires ViewOk(v, hasher) && Grouped(keys, group, hasher)
      modifies this`keyCount, gc.wheel, gc.wheel.slots, gc.nearQueue, newIdx, newIdx.segments
      ensures newIdx.Valid() && fresh(newIdx.repr - old(newIdx.repr))
      ensures gc.Valid() && Cancelled(old(gc.View()), AsSet(keys) * MapOf(v, hasher).Keys, cancelled, panicked)
      ensures keyCount == old(keyCount) - |cancelled| - if panicked then 1 else 0
      ensures !panicked ==>
                Progress(v, newIdx.view, hasher, AsSet(keys), delta, SizeOf) &&
                keyCount == old(keyCount) - KeyTotal(v) + KeyTotal(newIdx.view)
    {
      hide MapOf, BytesOf, ViewOk, W.WheelOk, Index.Valid, Grouped, AsSet, Remaining, Progress, KeyTotal,
        GarbageCollector.Valid, Cancelled;
      ghost var done: set<Str> := {};
      ghost var stored := MapOf(v, hasher).Keys;
      delta, panicked, cancelled := 0, false, [];
      NoneDeleted(v, hasher, SizeOf);
      NoneCancelled(stored);
      GroupedAll(keys, group, hasher);
      var todo := group.Keys;
      while exists si: int :: si in todo
        invariant todo <= group.Keys && Remaining(keys, group, todo, done) && !panicked
        invariant ptr.Valid() && gc.Valid() && Cancelled(old(gc.View()), done * stored, cancelled, false)
        invariant newIdx.Valid() && fresh(newIdx.repr - old(newIdx.repr))
        invariant Progress(v, newIdx.view, hasher, done, delta, SizeOf) && |v| == |newIdx.view| == SEGMENTS
        invariant forall si :: si in todo ==> 0 <= si < SEGMENTS && newIdx.view[si] == v[si]
        invariant forall k :: k in done ==> hasher(k) % SEGMENTS !in todo
        invariant keyCount == old(keyCount) - KeyTotal(v) + KeyTotal(newIdx.view) == old(keyCount) - |cancelled|
        decreases todo
      {
        var si: int :| si in todo;
        GroupedAt(keys, group, hasher, si);
        RemainingNext(keys, group, todo, done, si);
        todo := todo - {si};
        CancelledIs(old(gc.View()), done * stored, cancelled);
        ghost var mid, more := gc.View(), AsSet(group[si]);
        assert done !! more;
        var lost;
        ghost var now;
        var oldSeg := ptr.At(si);
        lost, panicked, now := DeleteGroup(oldSeg, newIdx, si, group[si], v, newIdx.view, done, delta);
        CancelledBoth(old(gc.View()), mid, done * stored, more * stored, cancelled, now, panicked);
        cancelled := cancelled + now;
        StoredOfBoth(done, more, stored);
        if panicked {
          RemainingIn(keys, group, todo, done + more);
          PanickedInMore(old(gc.View()), (done + more) * stored, AsSet(keys) * stored, cancelled);
          return;
        }
        delta := delta - lost;
        done := done + more;
      }
      assert todo == {};
      RemainingNone(keys, group, done);
    }

    /** One group: shrink a copy of its segment and put it into the new index. v is the published
        index, w the new one so far. */
    method DeleteGroup(oldSeg: Segment, newIdx: Index, si: nat, gks: seq<Str>, ghost v: seq<Seg<Entry>>,
                       ghost w: seq<Seg<Entry>>, ghost done: set<Str>, ghost delta: int)
      returns (lost: int, panicked: bool, ghost cancelled: seq<Str>)
      requires gc.Valid() && newIdx.Valid() && Apart(newIdx.repr) && newIdx.view == w
      requires Progress(v, w, hasher, done, delta, SizeOf) && si < SEGMENTS && w[si] == v[si]
      requires oldSeg.Valid() && oldSeg.View() == v[si]
      requires forall k :: k in AsSet(gks) ==> hasher(k) % SEGMENTS == si
      modifies this`keyCount, gc.wheel, gc.wheel.slots, gc.nearQueue, newIdx, newIdx.segments
      ensures newIdx.Valid() && fresh(newIdx.repr - old(newIdx.repr))
      ensures gc.Valid() && Cancelled(old(gc.View()), AsSet(gks) * MapOf(v, hasher).Keys, cancelled, panicked)
      ensures keyCount == old(keyCount) - |cancelled| - if panicked then 1 else 0
      ensures !panicked ==>
                newIdx.view == w[si := newIdx.view[si]] &&
                Progress(v, newIdx.view, hasher, done + AsSet(gks), delta - lost, SizeOf) &&
                keyCount == old(keyCount) - KeyTotal(w) + KeyTotal(newIdx.view)
    {
      hide MapOf, BytesOf, ViewOk, W.WheelOk, Index.Valid, AllZero, Shrunk, SegOk, SegMap, AsSet, Progress, KeyTotal,
        Cancelled;
      ProgressOk(v, w, hasher, done, delta, si, SizeOf);
      StoredOfGroup(v, hasher, si, AsSet(gks));
      var ns;
      ns, lost, panicked, cancelled := DeleteInCopy(oldSeg, gks);
      if panicked {
        return;
      }
      ghost var seg := ns.View();
      GroupProgress(v, w, hasher, done, delta, si, AsSet(gks), seg, lost, SizeOf);
      newIdx.SetSegment(si, ns);
    }

    /** The keys of the batch that are stored were cancelled one after the other, or those before the
        one whose Cancel panicked. */
    ghost predicate Cancelled(was: CM.Collector, stored: set<Str>, cancelled: seq<Str>, panicked: bool)
      reads gc, gc.wheel, gc.wheel.slots, gc.nearQueue, gc.coalescer
    {
      && gc.Valid() && NoDuplicates(cancelled) && CM.CancelAll(was, cancelled) == Ok(gc.View())
      && if panicked then AsSet(cancelled) < stored && CancelPanics(stored - AsSet(cancelled))
         else AsSet(cancelled) == stored
    }

    ghost predicate CancelPanics(keys: set<Str>)
      requires gc.Valid()
      reads gc, gc.wheel, gc.wheel.slots, gc.nearQueue, gc.coalescer
    {
      exists k :: k in keys && CM.Cancel(gc.View(), k) == Err
    }

    lemma NoneCancelled(stored: set<Str>)
      requires gc.Valid()
      ensures Cancelled(gc.View(), {} * stored, [], false)
    {
    }

    lemma CancelledIs(was: CM.Collector, done: set<Str>, cancelled: seq<Str>)
      requires Cancelled(was, done, cancelled, false)
      ensures gc.Valid() && NoDuplicates(cancelled) && AsSet(cancelled) == done
      ensures CM.CancelAll(was, cancelled) == Ok(gc.View())
    {
    }

    lemma PanickedInMore(was: CM.Collector, done: set<Str>, more: set<Str>, cancelled: seq<Str>)
      requires Cancelled(was, done, cancelled, true) && done <= more
      ensures Cancelled(was, more, cancelled, true)
    {
      hide CM.Cancel, CM.CancelAll;
    }

    /** Two rounds of Cancels on different keys are one. */
    lemma CancelledBoth(was: CM.Collector, mid: CM.Collector, done: set<Str>, more: set<Str>, a: seq<Str>, b: seq<Str>,
                        panicked: bool)
      requires NoDuplicates(a) && AsSet(a) == done && CM.CancelAll(was, a) == Ok(mid)
      requires Cancelled(mid, more, b, panicked) && done !! more
      ensures Cancelled(was, done + more, a + b, panicked)
    {
      hide CM.Cancel, CM.CancelAll, CancelPanics, GarbageCollector.Valid;
      CM.CancelInParts(was, a, b);
      assert AsSet(a + b) == done + AsSet(b);
      assert done + more - AsSet(a + b) == more - AsSet(b);
      forall i, j | 0 <= i < j < |a + b|
        ensures (a + b)[i] != (a + b)[j]
      {
        assert i < |a| ==> (a + b)[i] in done;
        assert j >= |a| ==> (a + b)[j] in AsSet(b);
      }
    }

    lemma NoTurns(c: CM.Collector, stored: set<Str>)
      ensures CM.TurnsTaken(c, {} * stored, [], false)
    {
    }

    lemma CancelledTurns(was: CM.Collector, stored: set<Str>, cancelled: seq<Str>, panicked: bool)
      requires CM.CollectorOk(was) && Cancelled(was, stored, cancelled, panicked)
      ensures CM.TurnsTaken(was, stored, cancelled, panicked)
    {
      hide CM.Cancel, CM.CancelAll, CM.CollectorOk, CM.TurnPanics, GarbageCollector.Valid, W.Shape;
      CM.NoTurnPanicked(was, cancelled);
      if panicked {
        PanickingTurn(was, stored, cancelled);
      }
    }

    lemma PanickingTurn(was: CM.Collector, stored: set<Str>, cancelled: seq<Str>)
      requires CM.CollectorOk(was) && Cancelled(was, stored, cancelled, true)
      ensures exists k :: k in stored - AsSet(cancelled) && CM.TurnPanics(was.near, AsSet(cancelled), k)
    {
      hide CM.Cancel, CM.CancelAll, CM.CollectorOk, CM.TurnPanics, W.WheelOk;
      GcOk();
      var k :| k in stored - AsSet(cancelled) && CM.Cancel(gc.View(), k) == Err;
      CM.CancelOneMore(was, cancelled, k);
      CM.CancelTurn(was, cancelled, k);
    }

    /** What Cancels do to the keys of the wheel. */
    lemma CancelledKeys(was: CM.Collector, done: set<Str>, cancelled: seq<Str>, panicked: bool)
      requires CM.CollectorOk(was) && Cancelled(was, done, cancelled, panicked)
      ensures gc.wheel.keyIndex.Keys == was.wheel.keyIndex.Keys - AsSet(cancelled)
      ensures !panicked ==> gc.wheel.keyIndex.Keys == was.wheel.keyIndex.Keys - done
    {
      hide CM.Cancel, CM.CancelAll, CM.CollectorOk;
      CM.CancelAllClears(was, cancelled);
    }

    /** The inner loop of deleteBatch: shrinks a copy of one segment in place. */
    method DeleteInCopy(oldSeg: Segment, gks: seq<Str>)
      returns (ns: Segment, lost: int, panicked: bool, ghost cancelled: seq<Str>)
      requires gc.Valid() && oldSeg.Valid() && SegOk(oldSeg.View())
      modifies this`keyCount, gc.wheel, gc.wheel.slots, gc.nearQueue
      ensures gc.Valid() && ns.Valid() && fresh(ns.keys.data) && fresh(ns.vals.data)
      ensures Cancelled(old(gc.View()), AsSet(gks) * SegMap(old(oldSeg.View())).Keys, cancelled, panicked)
      ensures keyCount == old(keyCount) - |cancelled| - if panicked then 1 else 0
      ensures !panicked ==>
                Shrunk(old(oldSeg.View()), AsSet(gks), ns.View(), lost, SizeOf) &&
                keyCount == old(keyCount) - |old(oldSeg.View()).keys| + |ns.View().keys|
    {
      hide Shrunk, SegOk, SegMap, SegDelete, AsSet, W.WheelOk, GarbageCollector.Valid, Segment.View, Cancelled;
      ghost var a := oldSeg.View();
      ns := CloneSegment(oldSeg);
      lost, panicked, cancelled := 0, false, [];
      ShrunkNone(a, SizeOf);
      NoneCancelled(SegMap(a).Keys);
      ghost var cur := a;
      ghost var done: set<Str> := {};
      AsSetEmpty(gks);
      for j := 0 to |gks|
        invariant gc.Valid() && !panicked
        invariant ns.Valid() && fresh(ns.keys.data) && fresh(ns.vals.data) && ns.View() == cur
        invariant done == AsSet(gks[..j]) && Shrunk(a, done, cur, lost, SizeOf)
        invariant keyCount == old(keyCount) - |a.keys| + |cur.keys| == old(keyCount) - |cancelled|
        invariant Cancelled(old(gc.View()), done * SegMap(a).Keys, cancelled, false)
      {
        var k := gks[j];
        AsSetNext(gks, j);
        ShrunkStep(a, done, cur, lost, k, SizeOf);
        var size, found;
        ghost var i;
        ns, size, found, i := DeleteKey(ns, k);
        if found {
          ShrunkFound(a, done, cur, lost, i, SizeOf);
          cur := SegDelete(cur, i);
          lost := lost + size;
          keyCount := keyCount - 1;
          StoredNext(a, gks, j, done);
          panicked, cancelled := CancelKey(k, old(gc.View()), done * SegMap(a).Keys, cancelled);
          if panicked {
            PanickedInMore(old(gc.View()), done * SegMap(a).Keys + {k}, AsSet(gks) * SegMap(a).Keys, cancelled);
            return;
          }
        }
        done := done + {k};
      }
      assert gks[..|gks|] == gks;
    }

    method CancelKey(key: Str, ghost was: CM.Collector, ghost done: set<Str>, ghost before: seq<Str>)
      returns (panicked: bool, ghost cancelled: seq<Str>)
      requires Cancelled(was, done, before, false) && key !in done
      modifies gc.wheel, gc.wheel.slots, gc.nearQueue
      ensures gc.Valid() && Cancelled(was, done + {key}, cancelled, panicked)
      ensures cancelled == if panicked then before else before + [key]
    {
      hide W.WheelOk, W.Shape, CM.Cancel, CM.CancelAll, CM.CollectorOk;
      GcOk();
      CM.CancelOneMore(was, before, key);
      assert AsSet(before + [key]) == AsSet(before) + {key};
      panicked := gc.Cancel(key);
      cancelled := if panicked then before else before + [key];
      if panicked {
        assert key in done + {key} - AsSet(cancelled);
      }
    }

    /** The groups of the batch, by segment: every key of the batch is in the group of its segment. */
    method GroupBySegment(keys: seq<Str>) returns (group: map<int, seq<Str>>)
      requires IndexValid()
      ensures Grouped(keys, group, hasher)
    {
      hide Grouped, Index.Valid;
      group := map[];
      GroupedNone(hasher);
      for i := 0 to |keys|
        invariant Grouped(keys[..i], group, hasher)
      {
        var k := keys[i];
        var si := SegmentIndexOf(k);
        assert keys[..i + 1] == keys[..i] + [k];
        GroupedNext(keys[..i], group, hasher, k);
        group := group[si := (if si in group then group[si] else []) + [k]];
      }
      assert keys[..|keys|] == keys;
    }

    /** panicked as in DeleteBatch. */
    method Delete(key: Str) returns (panicked: bool)
      requires Valid()
      modifies this, gc.wheel, gc.wheel.slots, gc.nearQueue
      ensures Valid() && fresh(Footprint() - old(Footprint()))
      ensures Contents() == if panicked then old(Contents()) else AfterDelete(old(Contents()), {key}, SizeOf)
      ensures keyCount == old(keyCount) - if key in old(Contents()) then 1 else 0
      ensures panicked <==> key in old(Contents()) && CM.PastEnd(old(gc.View()).near, key)
      ensures !panicked ==> gc.wheel.keyIndex.Keys == old(gc.wheel.keyIndex.Keys) - {key}
      ensures CancelledOne(old(gc.View()), key, key in old(Contents()), panicked)
    {
      hide AfterDelete, MapOf, W.WheelOk, BytesOf, GarbageCollector.Valid, Index.Valid, Cancelled, CancelledOne,
        CM.TurnsTaken, CM.PastEnd;
      assert AsSet([key]) == {key};
      OneKey(key, Contents());
      ghost var was, stored := gc.View(), key in Contents();
      GcOk();
      ghost var cancelled;
      panicked, cancelled := DeleteBatch([key]);
      OneCancel(was, key, stored, cancelled, panicked);
    }

    /** What Delete does to the collector: a Cancel if the key is stored, and nothing if it is not. */
    ghost predicate CancelledOne(was: CM.Collector, key: Str, stored: bool, panicked: bool)
      reads gc, gc.wheel, gc.wheel.slots, gc.nearQueue, gc.coalescer
    {
      W.Shape(was.wheel) &&
      if stored then
        match CM.Cancel(was, key)
        case Ok(c) => !panicked && gc.View() == c
        case Err => panicked && gc.View() == was
      else !panicked && gc.View() == was
    }

    lemma NoCancels(c: CM.Collector)
      ensures CM.CancelAll(c, []) == Ok(c)
    {
    }

    lemma OneCancel(was: CM.Collector, key: Str, stored: bool, cancelled: seq<Str>, panicked: bool)
      requires W.Shape(was.wheel) && Cancelled(was, if stored then {key} else {}, cancelled, panicked)
      ensures CancelledOne(was, key, stored, panicked)
      ensures panicked <==> stored && CM.PastEnd(was.near, key)
      ensures panicked ==> cancelled == []
    {
      CM.CancelHeap(was, key);
      hide CM.PastEnd;
      hide CM.Cancel, CM.CancelAll, GarbageCollector.Valid, W.Shape;
      forall i | 0 <= i < |cancelled|
        ensures cancelled[i] == key
      {
        assert cancelled[i] in AsSet(cancelled);
      }
      NoCancels(was);
      if cancelled == [] {
        assert AsSet(cancelled) == {};
      } else {
        var last := |cancelled| - 1;
        assert cancelled[0] == key == cancelled[last];
        assert cancelled == [key] && key in AsSet(cancelled) && [] + [key] == [key];
        CM.CancelOneMore(was, [], key);
      }
    }

    method Exists(key: Str) returns (found: bool)
      requires IndexValid()
      ensures found <==> key in Contents()
    {
      var e := Lookup(key);
      found := e.Some?;
    }

    /** The search that Get and Exists share. */
    method Lookup(key: Str) returns (e: Option<Entry>)
      requires IndexValid()
      ensures e == if key in Contents() then Some(Contents()[key]) else None
    {
      hide Index.Valid, MapOf;
      var idx := ptr;
      var si := SegmentIndexOf(key);
      var seg := idx.At(si);
      FoundInContents(ptr.view, hasher, key);
      var i, found := BinarySearch(seg.keys.data[..seg.keys.len], key);
      e := if found then Some(seg.vals.data[i]) else None;
    }

    /** now is the wall clock, cachedNow the cached one. Only the statistics of the entry change, and
        they change for every snapshot that holds it. */
    method Get(key: Str, now: int, cachedNow: int) returns (r: Option<StorageEntry>)
      requires Valid()
      modifies gc.coalescer, Cells(key)
      ensures Valid() && Contents() == old(Contents())
      ensures key !in Contents() ==> r == None && gc.coalescer.pending == old(gc.coalescer.pending)
      ensures key in Contents() ==>
                var (after, answer, doomed) := Read(old(Stored(key).Copy()), now, cachedNow);
                r == answer && Stored(key).Copy() == after &&
                gc.coalescer.pending == old(gc.coalescer.pending) + if doomed then {key} else {}
      ensures key in Contents() ==>
                var e := old(Stored(key).Copy());
                AnsweredAs(e, now, cachedNow, Stored(key).Copy(), r) &&
                gc.coalescer.pending == old(gc.coalescer.pending) + if Dooms(e, now) then {key} else {}
    {
      hide MapOf, ViewOk, W.WheelOk, BytesOf, GarbageCollector.Valid;
      var e := Lookup(key);
      if e.None? {
        return None;
      }
      ReadExact(e.value.Copy(), now, cachedNow);
      assert e.value == Stored(key) == old(Stored(key));
      assert e.value.Copy() == old(Stored(key).Copy());
      r := ReadEntry(key, e.value, now, cachedNow);
      assert Contents() == old(Contents());
    }

    /** Get once the entry is found. */
    method ReadEntry(key: Str, e: Entry, now: int, cachedNow: int) returns (r: Option<StorageEntry>)
      modifies gc.coalescer, e
      ensures var (after, answer, doomed) := Read(old(e.Copy()), now, cachedNow);
              r == answer && e.Copy() == after &&
              gc.coalescer.pending == old(gc.coalescer.pending) + if doomed then {key} else {}
      ensures AnsweredAs(old(e.Copy()), now, cachedNow, e.Copy(), r)
      ensures gc.coalescer.pending == old(gc.coalescer.pending) + if Dooms(old(e.Copy()), now) then {key} else {}
    {
      ReadExact(e.Copy(), now, cachedNow);
      if e.IsExpired(now) {
        gc.ScheduleDelete(key);
        return None;
      }
      if e.singleRead {
        if e.accessCount == 0 {
          e.accessCount := 1;
          gc.ScheduleDelete(key);
          return Some(e.Copy());
        }
        return None;
      }
      e.accessCount := WrapInt32(e.accessCount + 1);
      e.lastAccess := cachedNow;
      return Some(e.Copy());
    }

    ghost function Stored(key: Str): (e: Entry)
      requires ViewOk(ptr.view, hasher) && key in Contents()
      reads this, ptr
    {
      Contents()[key]
    }

    /** The entry of the key, if it is stored. */
    ghost function Cells(key: Str): set<Entry>
      reads this, ptr
    {
      if ViewOk(ptr.view, hasher) && key in Contents() then {Stored(key)} else {}
    }

    method Keys() returns (out: seq<Str>)
      requires IndexValid()
      ensures multiset(out) == multiset(Contents().Keys)
    {
      hide SegmentIndex.Contents, IndexOk;
      var idx := ptr;
      out := [];
      for i := 0 to idx.segments.Length
        invariant idx.segments.Length == |idx.view| && out == KeyList(idx.view[..i])
      {
        var seg := idx.At(i);
        assert idx.view[..i + 1][..i] == idx.view[..i];
        out := out + seg.keys.data[..seg.keys.len];
      }
      assert idx.view[..|idx.view|] == idx.view;
      KeyListExact(idx.view, hasher);
    }

    method Usage() returns (n: int)
      requires Valid()
      ensures n == MapWeight(Contents(), SizeOf) && n >= 0
    {
      WeightNonNegative(ptr.view, SizeOf);
      IndexWeight(ptr.view, hasher, SizeOf);
      n := usedBytes;
    }

    method Count() returns (n: int)
      ensures n == keyCount
    {
      n := keyCount;
    }
  }

  lemma OneKey(key: Str, m: map<Str, Entry>)
    ensures {key} * m.Keys == if key in m then {key} else {}
    ensures |{key} * m.Keys| == if key in m then 1 else 0
  {
    assert {key} * m.Keys == if key in m then {key} else {};
  }

  lemma FoundInContents(v: seq<Seg<Entry>>, hash: HashFn, key: Str)
    requires ViewOk(v, hash)
    ensures var si := hash(key) % SEGMENTS;
            SegOk(v[si]) && (key in MapOf(v, hash) <==> key in v[si].keys) &&
            forall i :: 0 <= i < |v[si].keys| && v[si].keys[i] == key ==>
              MapOf(v, hash)[key] == v[si].vals[i]
  {
    var si := hash(key) % SEGMENTS;
    ContentsAt(v, hash, key);
    forall i | 0 <= i < |v[si].keys| && v[si].keys[i] == key
      ensures MapOf(v, hash)[key] == v[si].vals[i]
    {
      SegMapAt(v[si], i);
    }
  }

  ghost predicate Grouped(keys: seq<Str>, group: map<int, seq<Str>>, hash: HashFn) {
    && (forall si :: si in group ==> 0 <= si < SEGMENTS)
    && (forall si, k :: si in group && k in group[si] ==> k in keys && hash(k) % SEGMENTS == si)
    && (forall k :: k in keys ==> hash(k) % SEGMENTS in group && k in group[hash(k) % SEGMENTS])
  }

  /** The keys still to be deleted are those of the groups still to do. */
  ghost predicate Remaining(keys: seq<Str>, group: map<int, seq<Str>>, todo: set<int>, done: set<Str>) {
    && todo <= group.Keys
    && (forall k :: k in keys ==> k in done || exists si :: si in todo && k in group[si])
    && (forall k :: k in done ==> k in keys)
    && (forall si, k :: si in group && k in group[si] ==> k in keys)
  }

  lemma GroupedNone(hash: HashFn)
    ensures Grouped([], map[], hash)
  {
  }

  lemma GroupedNext(keys: seq<Str>, group: map<int, seq<Str>>, hash: HashFn, k: Str)
    requires Grouped(keys, group, hash)
    ensures var si := hash(k) % SEGMENTS;
            Grouped(keys + [k], group[si := (if si in group then group[si] else []) + [k]], hash)
  {
  }

  lemma GroupedAll(keys: seq<Str>, group: map<int, seq<Str>>, hash: HashFn)
    requires Grouped(keys, group, hash)
    ensures Remaining(keys, group, group.Keys, {}) && forall si :: si in group.Keys ==> 0 <= si < SEGMENTS
  {
  }

  lemma GroupedAt(keys: seq<Str>, group: map<int, seq<Str>>, hash: HashFn, si: int)
    requires Grouped(keys, group, hash) && si in group
    ensures 0 <= si < SEGMENTS && forall k :: k in AsSet(group[si]) ==> hash(k) % SEGMENTS == si
  {
  }

  lemma RemainingNext(keys: seq<Str>, group: map<int, seq<Str>>, todo: set<int>, done: set<Str>, si: int)
    requires Remaining(keys, group, todo, done) && si in todo
    ensures Remaining(keys, group, todo - {si}, done + AsSet(group[si]))
  {
    forall k | k in keys
      ensures k in done + AsSet(group[si]) || exists sj :: sj in todo - {si} && k in group[sj]
    {
      if k !in done + AsSet(group[si]) {
        var sj :| sj in todo && k in group[sj];
        assert sj in todo - {si};
      }
    }
  }

  lemma RemainingIn(keys: seq<Str>, group: map<int, seq<Str>>, todo: set<int>, done: set<Str>)
    requires Remaining(keys, group, todo, done)
    ensures done <= AsSet(keys)
  {
  }

  lemma StoredOfBoth(done: set<Str>, more: set<Str>, stored: set<Str>)
    ensures (done + more) * stored == done * stored + more * stored
  {
  }

  lemma RemainingNone(keys: seq<Str>, group: map<int, seq<Str>>, done: set<Str>)
    requires Remaining(keys, group, {}, done)
    ensures done == AsSet(keys)
  {
  }

  /** So an empty key with an empty value stays stored while every Delete lowers the count by one,
      below zero in the end. */
  lemma {:induction false} EmptyKeyDrivesCountDown(e: Entry, m: map<Str, Entry>, count: int, deletes: nat)
    requires SizeOf([], e) == 0 && [] in m && m[[]] == e
    decreases deletes
    ensures CountAfterDeletes(m, {[]}, count, deletes) == (m, count - deletes)
  {
    if deletes > 0 {
      assert AllZero(m, {[]}, SizeOf);
      OneKey([], m);
      EmptyKeyDrivesCountDown(e, m, count - 1, deletes - 1);
    }
  }

  /** The contents and the key count after as many deletes of the same batch. */
  ghost function CountAfterDeletes(m: map<Str, Entry>, keys: set<Str>, count: int, deletes: nat): (map<Str, Entry>, int)
    decreases deletes
  {
    if deletes == 0 then (m, count)
    else CountAfterDeletes(AfterDelete(m, keys, SizeOf), keys, count - |keys * m.Keys|, deletes - 1)
  }

  lemma AfterNone(m: map<Str, Entry>)
    ensures AfterDelete(m, AsSet([]), SizeOf) == m && AsSet([]) == {}
  {
  }

  lemma WheelMinus(scheduled: set<Str>, stored: set<Str>, gone: set<Str>)
    requires scheduled <= stored
    ensures scheduled - gone * stored == scheduled - gone
    ensures scheduled - gone <= stored - gone
  {
  }

  /** The copy of one segment that Set makes and edits: all shifting happens in the new arrays. */
  method PutInCopy(oldSeg: Segment, key: Str, e: Entry) returns (ns: Segment, ghost i: int, delta: int, isNew: bool)
    requires oldSeg.Valid() && SegOk(oldSeg.View())
    ensures ns.Valid() && fresh(ns.keys.data) && fresh(ns.vals.data)
    ensures Splits(oldSeg.View().keys, key, i) && ns.View() == SegPut(oldSeg.View(), i, key, e)
    ensures isNew <==> key !in oldSeg.View().keys
    ensures !isNew ==> i < |oldSeg.View().vals|
    ensures delta == SizeOf(key, e) - if isNew then 0 else SizeOf(key, oldSeg.View().vals[i])
  {
    var keys := G.Clone(oldSeg.keys);
    var vals := G.Clone(oldSeg.vals);
    var at, found := BinarySearch(keys.data[..keys.len], key);
    i, delta, isNew := at, 0, !found;
    SplitFinds(oldSeg.View().keys, key, i);
    if found {
      var prev := vals.data[at];
      delta := delta - SizeOf(key, prev);
      vals.data[at] := e;
    } else {
      keys := G.InsertAt(keys, at, [], key);
      vals := G.InsertAt(vals, at, e, e);
    }
    delta := delta + SizeOf(key, e);
    ns := Segment(keys, vals);
  }

  lemma PutOutcome(v: seq<Seg<Entry>>, hash: HashFn, key: Str, i: int, val: Entry, delta: int, isNew: bool)
    requires ViewOk(v, hash) && Splits(v[hash(key) % SEGMENTS].keys, key, i)
    requires isNew <==> key !in v[hash(key) % SEGMENTS].keys
    requires !isNew ==> i < |v[hash(key) % SEGMENTS].vals|
    requires delta == SizeOf(key, val) - if isNew then 0 else SizeOf(key, v[hash(key) % SEGMENTS].vals[i])
    ensures var si := hash(key) % SEGMENTS;
            var r := v[si := SegPut(v[si], i, key, val)];
            ViewOk(r, hash) && MapOf(r, hash) == MapOf(v, hash)[key := val] &&
              BytesOf(r, hash, SizeOf) == BytesOf(v, hash, SizeOf) + delta
    ensures isNew <==> key !in MapOf(v, hash)
  {
    PutExact(v, hash, key, i, val);
    PutTotals(v, hash, key, i, val, SizeOf);
    LookupInContents(v, hash, key, i);
    SplitFinds(v[hash(key) % SEGMENTS].keys, key, i);
    ContentsAt(v, hash, key);
  }

  lemma SegmentOk(v: seq<Seg<Entry>>, hash: HashFn, si: nat)
    requires ViewOk(v, hash) && si < SEGMENTS
    ensures |v| == SEGMENTS && SegOk(v[si])
  {
  }

  lemma StoredNext(a: Seg<Entry>, keys: seq<Str>, j: nat, done: set<Str>)
    requires j < |keys| && done == AsSet(keys[..j]) && SegOk(a) && keys[j] in SegMap(a)
    ensures (done + {keys[j]}) * SegMap(a).Keys == done * SegMap(a).Keys + {keys[j]} <= AsSet(keys) * SegMap(a).Keys
  {
    hide SegMap;
  }

  lemma AsSetEmpty(keys: seq<Str>)
    ensures AsSet(keys[..0]) == {}
  {
  }

  lemma AsSetNext(keys: seq<Str>, j: nat)
    requires j < |keys|
    ensures AsSet(keys[..j + 1]) == AsSet(keys[..j]) + {keys[j]}
  {
  }

  method CloneSegment(seg: Segment) returns (ns: Segment)
    requires seg.Valid()
    ensures ns.Valid() && fresh(ns.keys.data) && fresh(ns.vals.data) && ns.View() == seg.View()
  {
    var keys := G.Clone(seg.keys);
    var vals := G.Clone(seg.vals);
    ns := Segment(keys, vals);
  }

  /** One key of a group: search the copy, and close the gap the key leaves, in place. */
  method DeleteKey(seg: Segment, k: Str) returns (ns: Segment, size: int, found: bool, ghost at: nat)
    requires seg.Valid() && SegOk(seg.View())
    modifies seg.keys.data, seg.vals.data
    ensures ns.Valid() && ns.keys.data == seg.keys.data && ns.vals.data == seg.vals.data
    ensures found <==> k in old(seg.View()).keys
    ensures !found ==> ns.View() == old(seg.View())
    ensures found ==> at < |old(seg.View()).keys| && old(seg.View()).keys[at] == k
    ensures found ==> ns.View() == SegDelete(old(seg.View()), at) && size == SizeOf(k, old(seg.View()).vals[at])
  {
    ns, size, at := seg, 0, 0;
    var i;
    i, found := BinarySearch(seg.keys.data[..seg.keys.len], k);
    if found {
      at := i;
      size := SizeOf(k, seg.vals.data[i]);
      var keys := G.RemoveAt(seg.keys, i);
      var vals := G.RemoveAt(seg.vals, i);
      ns := Segment(keys, vals);
    }
  }

  lemma EmptyIndex(v: seq<Seg<Entry>>, hash: HashFn)
    requires v == seq(SEGMENTS, _ => Seg([], []))
    ensures ViewOk(v, hash) && MapOf(v, hash) == map[] && BytesOf(v, hash, SizeOf) == 0
  {
    assert forall i :: 0 <= i < |v| ==> v[i] == Seg([], []);
    EmptyTotals(v, SizeOf);
  }
}
