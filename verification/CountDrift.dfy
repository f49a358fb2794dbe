/** How deletes drive the key count of a store below zero: three keys are set and two of them deleted
    again. The second delete panics inside Cancel, after its key has been counted down, because the
    position that the near queue recorded for it is past the end of the heap. The lock is released,
    nothing is published, and every further delete of that key does the same. */
module CountDrifts {
  import opened GoTypes
  import opened Entries
  import opened CowStores
  import opened SegmentIndex
  import opened BatchDelete
  import CM = CollectorModel
  import N = NearModel
  import W = WheelModel

  const A: Str := [97]
  const B: Str := [98]
  const C: Str := [99]

  const CLOCK := CM.Clock(0, 0, 0)

  /** An entry of one byte that is due `ttl` nanoseconds after the epoch. */
  function Small(ttl: int): StorageEntry {
    StorageEntry([120], 1, ttl, 0, None, false, 0, 0)
  }

  /** A new key that is due no earlier than the others goes to the end of the heap and stays there. */
  lemma RisingDeadline(c: CM.Collector, key: Str, ttl: int)
    requires W.Shape(c.wheel) && key !in c.near.index && 0 < ttl < NANOS_PER_MILLI && c.windowMs == 2000
    requires forall i :: 0 <= i < |c.near.heap| ==> c.near.heap[i].expireAt <= ttl
    ensures var n := |c.near.heap|;
            CM.Schedule(c, key, ttl, 0, CLOCK) ==
            Ok(c.(near := N.Near(c.near.heap + [N.NearEntry(key, ttl, n)], c.near.index[key := n])))
  {
    var n := |c.near.heap|;
    var p := c.near.(heap := c.near.heap + [N.NearEntry(key, ttl, n)]);
    assert DeadlineMs(ttl) == 0;
    assert N.Up(p, n, false) == (p, n);
  }

  /** The near queue after these keys were set one after the other, each due later than the last. */
  ghost predicate Risen(c: CM.Collector, keys: seq<Str>) {
    && CM.CollectorOk(c) && c.windowMs == 2000 && |c.near.heap| == |keys|
    && (forall i :: 0 <= i < |keys| ==> c.near.heap[i].expireAt == i + 1)
    && (forall k :: k in c.near.index <==> k in keys)
    && (forall i :: 0 <= i < |keys| ==> c.near.index[keys[i]] == i)
  }

  lemma RisesFurther(c: CM.Collector, keys: seq<Str>, key: Str)
    requires Risen(c, keys) && key !in keys && |keys| < 10
    ensures W.Shape(c.wheel) && CM.ClockOk(CLOCK, c.wheel.tickMs)
    ensures var r := CM.Schedule(c, key, |keys| + 1, 0, CLOCK); r.Ok? && Risen(r.value, keys + [key])
  {
    hide CM.Schedule, W.WheelOk;
    assert W.Shape(c.wheel) by { ShapeOf(c); }
    RisingDeadline(c, key, |keys| + 1);
  }

  lemma ShapeOf(c: CM.Collector)
    requires CM.CollectorOk(c)
    ensures W.Shape(c.wheel)
  {
  }

  method SetNext(s: COWIndexStore, key: Str, keys: seq<Str>)
    requires s.Valid() && Risen(s.gc.View(), keys) && key !in keys && |keys| < 10
    requires s.Contents().Keys == AsSet(keys) && s.keyCount == |keys|
    modifies s, s.gc.wheel, s.gc.wheel.slots, s.gc.nearQueue
    ensures s.Valid() && Risen(s.gc.View(), keys + [key])
    ensures s.Contents().Keys == AsSet(keys + [key]) && s.keyCount == |keys| + 1
  {
    hide COWIndexStore.Valid, COWIndexStore.Contents, COWIndexStore.Footprint, CM.Schedule, CM.ClockOk, W.Shape, Risen;
    RisesFurther(s.gc.View(), keys, key);
    assert key !in AsSet(keys) && AsSet(keys + [key]) == AsSet(keys) + {key};
    var panicked := s.Set(key, Small(|keys| + 1), 0, CLOCK);
  }

  /** Once the first of three keys is cancelled, the position recorded for the last is past the end. */
  lemma LastPastEnd(c: CM.Collector)
    requires Risen(c, [A, B, C])
    ensures W.Shape(c.wheel) && !CM.PastEnd(c.near, A)
    ensures CM.Cancel(c, A).Ok? && CM.PastEnd(CM.Cancel(c, A).value.near, C)
  {
    hide CM.Cancel, W.WheelOk;
    assert [A, B, C][0] == A && [A, B, C][2] == C && A != C;
    ShapeOf(c);
    CM.CancelHeap(c, A);
    CM.CancelClearsWheel(c, A);
  }

  lemma OneGone(m: map<Str, Entry>, key: Str)
    requires key in m && key != []
    ensures AfterDelete(m, {key}, SizeOf) == m - {key}
  {
  }

  /** A delete of a stored key whose recorded position is past the end: only the count changes. */
  method PanickingDelete(s: COWIndexStore, key: Str)
    requires s.Valid() && key in s.Contents() && CM.PastEnd(s.gc.View().near, key)
    modifies s, s.gc.wheel, s.gc.wheel.slots, s.gc.nearQueue
    ensures s.Valid() && s.Contents() == old(s.Contents()) && s.keyCount == old(s.keyCount) - 1
    ensures s.gc.View() == old(s.gc.View())
  {
    hide COWIndexStore.Valid, COWIndexStore.Contents, COWIndexStore.Footprint, CM.Cancel, W.Shape, CM.PastEnd;
    var panicked := s.Delete(key);
  }

  method ThreeSets(hasher: HashFn, nowMs: int) returns (s: COWIndexStore)
    ensures s.Valid() && Risen(s.gc.View(), [A, B, C])
    ensures fresh({s, s.gc.wheel, s.gc.wheel.slots, s.gc.nearQueue})
    ensures s.Contents().Keys == AsSet([A, B, C]) && s.keyCount == 3
  {
    hide COWIndexStore.Valid, COWIndexStore.Contents, Risen, AsSet, ViewOk;
    s := new COWIndexStore(hasher, nowMs);
    NoneRisen(s.gc.View());
    s.ValidParts();
    SetNext(s, A, []);
    assert [] + [A] == [A];
    SetNext(s, B, [A]);
    assert [A] + [B] == [A, B];
    SetNext(s, C, [A, B]);
    assert [A, B] + [C] == [A, B, C];
    s.ValidParts();
  }

  method DeleteFirst(s: COWIndexStore)
    requires s.Valid() && Risen(s.gc.View(), [A, B, C]) && s.Contents().Keys == AsSet([A, B, C])
    modifies s, s.gc.wheel, s.gc.wheel.slots, s.gc.nearQueue
    ensures s.Valid() && s.Contents().Keys == {B, C} && s.keyCount == old(s.keyCount) - 1
    ensures CM.PastEnd(s.gc.View().near, C)
  {
    hide COWIndexStore.Valid, COWIndexStore.Contents, COWIndexStore.Footprint, CM.Cancel, W.Shape, CM.PastEnd,
      AfterDelete, Risen;
    LastPastEnd(s.gc.View());
    s.ValidParts();
    assert s.Contents().Keys == {A, B, C};
    OneGone(s.Contents(), A);
    var panicked := s.Delete(A);
  }

  /** After the three Sets, the delete of the first key and any number of deletes of the last, two keys
      are stored; the count says otherwise from the first of those on, and is negative from the third. */
  method CountAfterPanics(hasher: HashFn, nowMs: int, deletes: nat) returns (count: int, keys: seq<Str>)
    ensures count == 2 - deletes && multiset(keys) == multiset{B, C}
  {
    hide COWIndexStore.Valid, COWIndexStore.Contents, COWIndexStore.Footprint, COWIndexStore.IndexValid, CM.PastEnd,
      Risen, AsSet, ViewOk;
    var s := ThreeSets(hasher, nowMs);
    DeleteFirst(s);
    s.ValidParts();
    for i := 0 to deletes
      invariant s.Valid() && ViewOk(s.ptr.view, s.hasher)
      invariant s.Contents().Keys == {B, C} && s.keyCount == 2 - i && CM.PastEnd(s.gc.View().near, C)
    {
      PanickingDelete(s, C);
      s.ValidParts();
    }
    s.ValidParts();
    count := s.Count();
    keys := s.Keys();
    assert multiset({B, C}) == multiset{B, C};
  }

  lemma NoneRisen(c: CM.Collector)
    requires c == CM.Collector(W.Wheel(seq(2048, _ => []), 0, 500, map[]), N.Near([], map[]), 2000, {})
    ensures Risen(c, []) && AsSet([]) == {}
  {
  }
}
