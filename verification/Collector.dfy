/** The garbage collector: the near queue, the wheel and the delete coalescer behind Schedule,
    Cancel, ScheduleDelete and the two ticks. First as a value, then as the objects. */
module CollectorModel {
  import opened GoTypes
  import W = WheelModel
  import N = NearModel
  import T = WheelTimers
  import opened NearQueueIndex
  import opened NearQueueProofs

  const DEFAULT_NEAR_WINDOW_MS := 2000

  datatype Collector = Collector(wheel: W.Wheel, near: N.Near, windowMs: int, pending: set<Str>)

  /** What a call reads from outside: the cached clock (ns), the wall clock (ms), the random smear. */
  datatype Clock = Clock(cachedNow: int, wallMs: int, smear: int)

  ghost predicate CollectorOk(c: Collector) {
    && W.WheelOk(c.wheel)
    && c.wheel.tickMs >= 100
    && (forall k :: k in c.near.index ==> c.near.index[k] >= 0)
  }

  ghost predicate ClockOk(clk: Clock, tickMs: int) {
    -(tickMs / 4) < clk.smear < tickMs / 4
  }

  /** Err is the index-out-of-range panic of the near queue. */
  function Cancel(c: Collector, key: Str): Result<Collector>
    requires W.Shape(c.wheel)
  {
    match N.Remove(c.near, key, false)
    case Done(q) => Ok(c.(near := q, wheel := W.Remove(c.wheel, key)))
    case _ => Err
  }

  /** The deadline is createdAt plus ttl nanoseconds. */
  function Schedule(c: Collector, key: Str, ttl: int, createdAt: int, clk: Clock): Result<Collector>
    requires W.Shape(c.wheel)
  {
    if ttl <= 0 then Cancel(c, key) else
      var expireAt := createdAt + ttl;
      match N.Add(c.near, key, expireAt, TruncDiv(clk.cachedNow, NANOS_PER_MILLI), c.windowMs, false)
      case Done(q) => Ok(c.(near := q))
      case TooFar => Ok(c.(wheel := W.Add(c.wheel, key, expireAt + clk.smear, clk.wallMs)))
      case Panicked => Err
  }

  function ScheduleDelete(c: Collector, key: Str): Collector {
    c.(pending := c.pending + {key})
  }

  function NearTick(c: Collector, cachedNow: int): Collector {
    var (q, popped) := N.Drain(c.near, TruncDiv(cachedNow, NANOS_PER_MILLI), false);
    c.(near := q, pending := c.pending + set e | e in popped :: e.key)
  }

  function WheelTick(c: Collector, wallMs: int): Collector
    requires W.Shape(c.wheel)
  {
    c.(wheel := W.Advance(c.wheel, wallMs), pending := c.pending + AsSet(W.Expired(c.wheel, wallMs)))
  }

  /** A successful Cancel leaves the wheel without the key and with everything else it had. */
  lemma CancelClearsWheel(c: Collector, key: Str)
    requires CollectorOk(c)
    ensures Cancel(c, key).Ok? ==>
              CollectorOk(Cancel(c, key).value) &&
              Cancel(c, key).value.wheel.keyIndex.Keys == c.wheel.keyIndex.Keys - {key} &&
              Cancel(c, key).value.near.index == c.near.index - {key}
  {
    W.RemoveKeepsOk(c.wheel, key);
    if key in c.near.index && 0 <= c.near.index[key] < |c.near.heap| {
      NearRemoveIndex(c.near, key);
    }
  }

  /** One Cancel after the other; the first panic stops them. */
  ghost function CancelAll(c: Collector, keys: seq<Str>): Result<Collector> {
    if keys == [] then Ok(c) else
      var n := |keys| - 1;
      match CancelAll(c, keys[..n])
      case Ok(d) => if W.Shape(d.wheel) then Cancel(d, keys[n]) else Err
      case Err => Err
  }

  lemma CancelOneMore(c: Collector, keys: seq<Str>, key: Str)
    requires CancelAll(c, keys).Ok? && W.Shape(CancelAll(c, keys).value.wheel)
    ensures CancelAll(c, keys + [key]) == Cancel(CancelAll(c, keys).value, key)
  {
    assert (keys + [key])[..|keys|] == keys;
  }

  lemma {:induction false} CancelInParts(c: Collector, a: seq<Str>, b: seq<Str>)
    requires CancelAll(c, a).Ok?
    ensures CancelAll(c, a + b) == CancelAll(CancelAll(c, a).value, b)
  {
    hide Cancel, W.Shape;
    if b == [] {
      assert a + b == a;
    } else {
      var n := |b| - 1;
      CancelInParts(c, a, b[..n]);
      assert (a + b)[..|a + b| - 1] == a + b[..n];
    }
  }

  /** Cancels take their keys from the wheel and from the near queue's map, and no others. */
  lemma {:induction false} CancelAllClears(c: Collector, keys: seq<Str>)
    requires CollectorOk(c) && CancelAll(c, keys).Ok?
    ensures var r := CancelAll(c, keys).value;
            CollectorOk(r) && r.wheel.keyIndex.Keys == c.wheel.keyIndex.Keys - AsSet(keys) &&
            r.near.index == c.near.index - AsSet(keys) && r.pending == c.pending && r.windowMs == c.windowMs
  {
    hide CollectorOk;
    if keys != [] {
      var n := |keys| - 1;
      CancelAllClears(c, keys[..n]);
      var d := CancelAll(c, keys[..n]).value;
      CancelClearsWheel(d, keys[n]);
      assert AsSet(keys) == AsSet(keys[..n]) + {keys[n]};
    }
  }

  // ---------- When a Cancel panics ----------

  /** The key's recorded position is no position of the heap. */
  predicate PastEnd(q: N.Near, key: Str) {
    key in q.index && !(0 <= q.index[key] < |q.heap|)
  }

  /** A Cancel that does not panic takes one entry off the heap if the map names its key. */
  lemma CancelHeap(c: Collector, key: Str)
    requires W.Shape(c.wheel)
    ensures Cancel(c, key).Err? <==> PastEnd(c.near, key)
    ensures Cancel(c, key).Ok? ==>
              |Cancel(c, key).value.near.heap| == |c.near.heap| - if key in c.near.index then 1 else 0
  {
  }

  /** The recorded position of the key is past the end of the heap once so many of these keys are
      cancelled as the map names. */
  ghost predicate TurnPanics(q: N.Near, before: set<Str>, key: Str) {
    key in q.index && q.index[key] >= |q.heap| - |before * q.index.Keys|
  }

  lemma {:induction false} CancelAllHeap(c: Collector, keys: seq<Str>)
    requires CollectorOk(c) && CancelAll(c, keys).Ok? && NoDuplicates(keys)
    ensures |CancelAll(c, keys).value.near.heap| == |c.near.heap| - |AsSet(keys) * c.near.index.Keys|
  {
    hide CollectorOk, Cancel, W.Shape;
    if keys != [] {
      var n := |keys| - 1;
      CancelAllHeap(c, keys[..n]);
      CancelAllClears(c, keys[..n]);
      CancelHeap(CancelAll(c, keys[..n]).value, keys[n]);
      assert keys[n] !in AsSet(keys[..n]);
      OneMoreOf(AsSet(keys[..n]), keys[n], c.near.index.Keys);
      assert AsSet(keys) == AsSet(keys[..n]) + {keys[n]};
    }
  }

  lemma OneMoreOf(before: set<Str>, key: Str, named: set<Str>)
    requires key !in before
    ensures |(before + {key}) * named| == |before * named| + if key in named then 1 else 0
  {
    assert (before + {key}) * named == before * named + if key in named then {key} else {};
  }

  /** When the turn of a key comes, its Cancel panics exactly if the position that the map recorded
      before the first of them is past the end that the heap has by then. */
  lemma CancelTurn(c: Collector, keys: seq<Str>, key: Str)
    requires CollectorOk(c) && CancelAll(c, keys).Ok? && NoDuplicates(keys) && key !in keys
    ensures CancelAll(c, keys + [key]).Err? <==> TurnPanics(c.near, AsSet(keys), key)
  {
    CancelAllHeap(c, keys);
    CancelAllClears(c, keys);
    var d := CancelAll(c, keys).value;
    assert W.Shape(d.wheel);
    CancelOneMore(c, keys, key);
    CancelHeap(d, key);
    hide Cancel, CancelAll, W.Shape, W.WheelOk;
  }

  /** No key's turn was one to panic, and if one did, it was the turn of a key still to come. */
  ghost predicate TurnsTaken(c: Collector, keys: set<Str>, cancelled: seq<Str>, panicked: bool) {
    && (forall i :: 0 <= i < |cancelled| ==> !TurnPanics(c.near, AsSet(cancelled[..i]), cancelled[i]))
    && (panicked ==> exists k :: k in keys - AsSet(cancelled) && TurnPanics(c.near, AsSet(cancelled), k))
  }

  lemma {:induction false} NoTurnPanicked(c: Collector, keys: seq<Str>)
    requires CollectorOk(c) && CancelAll(c, keys).Ok? && NoDuplicates(keys)
    ensures forall i :: 0 <= i < |keys| ==> !TurnPanics(c.near, AsSet(keys[..i]), keys[i])
  {
    hide CollectorOk, Cancel, W.Shape, TurnPanics;
    if keys != [] {
      var n := |keys| - 1;
      assert keys == keys[..n] + [keys[n]];
      NoTurnPanicked(c, keys[..n]);
      CancelTurn(c, keys[..n], keys[n]);
      assert forall i :: 0 <= i < n ==> keys[..n][..i] == keys[..i];
    }
  }

  ghost predicate Lists(order: seq<Str>, keys: set<Str>) {
    NoDuplicates(order) && AsSet(order) == keys
  }

  lemma {:induction false} SomeList(keys: set<Str>) returns (order: seq<Str>)
    ensures Lists(order, keys)
    decreases keys
  {
    if keys == {} {
      order := [];
    } else {
      var k :| k in keys;
      var rest := SomeList(keys - {k});
      order := rest + [k];
      assert AsSet(order) == AsSet(rest) + {k};
      assert forall i :: 0 <= i < |rest| ==> rest[i] in AsSet(rest);
    }
  }

  /** Cancels in this order run into a panic. */
  ghost predicate PanickingOrder(c: Collector, order: seq<Str>, keys: set<Str>) {
    Lists(order, keys) && CancelAll(c, order) == Err
  }

  lemma {:induction false} FirstPanic(c: Collector, order: seq<Str>) returns (i: nat)
    requires CollectorOk(c) && NoDuplicates(order) && CancelAll(c, order) == Err
    ensures i < |order| && CancelAll(c, order[..i]).Ok? && TurnPanics(c.near, AsSet(order[..i]), order[i])
  {
    hide CollectorOk, Cancel, W.Shape, TurnPanics;
    var n := |order| - 1;
    if CancelAll(c, order[..n]) == Err {
      i := FirstPanic(c, order[..n]);
      assert order[..n][..i] == order[..i];
    } else {
      i := n;
      assert order == order[..n] + [order[n]];
      CancelTurn(c, order[..n], order[n]);
    }
  }

  /** Some order of these Cancels panics exactly if a position recorded for one of them is past the
      end that the heap has when its turn is the last. */
  lemma SomeOrderPanicsIff(c: Collector, keys: set<Str>)
    requires CollectorOk(c)
    ensures (exists order :: PanickingOrder(c, order, keys)) <==>
            exists k :: k in keys && TurnPanics(c.near, keys - {k}, k)
  {
    hide CollectorOk, PanickingOrder, TurnPanics;
    if order :| PanickingOrder(c, order, keys) {
      var k := OrderPanicsLast(c, order, keys);
    }
    if k :| k in keys && TurnPanics(c.near, keys - {k}, k) {
      var order := LastOrderPanics(c, keys, k);
    }
  }

  lemma OrderPanicsLast(c: Collector, order: seq<Str>, keys: set<Str>) returns (k: Str)
    requires CollectorOk(c) && PanickingOrder(c, order, keys)
    ensures k in keys && TurnPanics(c.near, keys - {k}, k)
  {
    hide CollectorOk, CancelAll;
    var i := FirstPanic(c, order);
    k := order[i];
    FewerBefore(order, i);
    SubsetCount(AsSet(order[..i]) * c.near.index.Keys, (keys - {k}) * c.near.index.Keys);
  }

  lemma LastOrderPanics(c: Collector, keys: set<Str>, k: Str) returns (order: seq<Str>)
    requires CollectorOk(c) && k in keys && TurnPanics(c.near, keys - {k}, k)
    ensures PanickingOrder(c, order, keys)
  {
    hide CollectorOk, CancelAll, TurnPanics;
    var rest := SomeList(keys - {k});
    assert k !in AsSet(rest);
    LastPanics(c, rest, k);
    order := rest + [k];
    assert AsSet(order) == AsSet(rest) + {k};
  }

  lemma FewerBefore(order: seq<Str>, i: nat)
    requires NoDuplicates(order) && i < |order|
    ensures AsSet(order[..i]) <= AsSet(order) - {order[i]} && order[i] in AsSet(order)
  {
  }

  lemma SubsetCount(a: set<Str>, b: set<Str>)
    requires a <= b
    ensures |a| <= |b|
  {
    assert b == a + (b - a);
  }

  lemma LastPanics(c: Collector, rest: seq<Str>, key: Str)
    requires CollectorOk(c) && NoDuplicates(rest) && key !in rest && TurnPanics(c.near, AsSet(rest), key)
    ensures CancelAll(c, rest + [key]) == Err
  {
    if CancelAll(c, rest).Ok? {
      CancelTurn(c, rest, key);
    } else {
      assert (rest + [key])[..|rest|] == rest;
    }
  }

  lemma NearRemoveIndex(q: N.Near, key: Str)
    requires key in q.index && 0 <= q.index[key] < |q.heap|
    ensures N.Remove(q, key, false).Done? && N.Remove(q, key, false).q.index == q.index - {key}
  {
    var i, n := q.index[key], |q.heap| - 1;
    if i < n {
      var s := N.Swap(q, i, n, false);
      SiftIndex(s, i, n);
    }
  }

  lemma SiftIndex(q: N.Near, i: int, n: int)
    requires 0 <= i < n <= |q.heap|
    ensures N.DownElseUp(q, i, n, false).index == q.index
  {
    CodeSwapDownIndex(q, i, n);
    CodeSwapUpIndex(N.Down(q, i, n, false).0, i);
  }

  /** A near-queue Add that succeeds names its key and forgets none. */
  lemma NearAddIndex(q: N.Near, key: Str, expireAt: int, nowMs: int, windowMs: int)
    requires forall k :: k in q.index ==> q.index[k] >= 0
    ensures var a := N.Add(q, key, expireAt, nowMs, windowMs, false);
            a.Done? ==> a.q.index.Keys == q.index.Keys + {key} && forall k :: k in a.q.index ==> a.q.index[k] >= 0
  {
    if key in q.index {
      var at := q.index[key];
      if at < |q.heap| {
        SiftIndex(q.(heap := q.heap[at := q.heap[at].(expireAt := expireAt)]), at, |q.heap|);
      }
    } else {
      var n := |q.heap|;
      CodeSwapUpIndex(q.(heap := q.heap + [N.NearEntry(key, expireAt, n)]), n);
    }
  }

  /** After Schedule with a positive ttl the key is on the near queue or on the wheel; the wheel
      gains at most this key and loses none. */
  lemma ScheduleCovers(c: Collector, key: Str, ttl: int, createdAt: int, clk: Clock)
    requires CollectorOk(c) && ttl > 0 && Schedule(c, key, ttl, createdAt, clk).Ok?
    ensures var r := Schedule(c, key, ttl, createdAt, clk).value;
            CollectorOk(r) && r.pending == c.pending && r.windowMs == c.windowMs &&
            (key in r.near.index || key in r.wheel.keyIndex) &&
            c.wheel.keyIndex.Keys <= r.wheel.keyIndex.Keys <= c.wheel.keyIndex.Keys + {key} &&
            r.near.index.Keys <= c.near.index.Keys + {key}
  {
    var expireAt := createdAt + ttl;
    NearAddIndex(c.near, key, expireAt, TruncDiv(clk.cachedNow, NANOS_PER_MILLI), c.windowMs);
    W.AddKeepsOk(c.wheel, key, expireAt + clk.smear, clk.wallMs);
    hide N.Add, W.Add, W.WheelOk;
  }

  /** Whatever the ttl, wheel and near queue gain at most the scheduled key. */
  lemma ScheduleKeys(c: Collector, key: Str, ttl: int, createdAt: int, clk: Clock)
    requires CollectorOk(c) && Schedule(c, key, ttl, createdAt, clk).Ok?
    ensures var r := Schedule(c, key, ttl, createdAt, clk).value;
            CollectorOk(r) && r.wheel.keyIndex.Keys <= c.wheel.keyIndex.Keys + {key} &&
            r.near.index.Keys <= c.near.index.Keys + {key}
  {
    hide Cancel, N.Add, W.Add, W.WheelOk, CollectorOk;
    if ttl <= 0 {
      CancelClearsWheel(c, key);
    } else {
      ScheduleCovers(c, key, ttl, createdAt, clk);
    }
  }

  // ---------- The heap stays ordered ----------

  lemma CancelKeepsHeap(c: Collector, key: Str)
    requires W.Shape(c.wheel) && NearOk(c.near.heap) && Cancel(c, key).Ok?
    ensures NearOk(Cancel(c, key).value.near.heap)
  {
    OperationsKeepOrder(c.near, key, 0, 0, 0, false);
    hide N.Remove, N.Add, NearOk, W.Remove;
  }

  lemma ScheduleKeepsHeap(c: Collector, key: Str, ttl: int, createdAt: int, clk: Clock)
    requires W.Shape(c.wheel) && NearOk(c.near.heap) && Schedule(c, key, ttl, createdAt, clk).Ok?
    ensures NearOk(Schedule(c, key, ttl, createdAt, clk).value.near.heap)
  {
    hide Cancel, N.Add, NearOk, W.Add;
    if ttl <= 0 {
      CancelKeepsHeap(c, key);
    } else {
      OperationsKeepOrder(c.near, key, createdAt + ttl, TruncDiv(clk.cachedNow, NANOS_PER_MILLI), c.windowMs, false);
    }
  }

  // ---------- Nothing scheduled ----------

  /** Neither the wheel nor the near queue's map has anything of the key. */
  ghost predicate Unscheduled(c: Collector, key: Str) {
    && key !in c.wheel.keyIndex && key !in c.near.index
    && forall i :: 0 <= i < |c.wheel.slots| ==> !W.HasKey(c.wheel.slots[i], key)
  }

  /** What Schedule promises of its key, whatever the ttl. */
  ghost predicate ScheduledAsAsked(c: Collector, key: Str, ttl: int) {
    if ttl <= 0 then Unscheduled(c, key) else key in c.wheel.keyIndex || key in c.near.index
  }

  /** Cancel panics exactly if the recorded position is past the end. Otherwise nothing of the key is
      left but what the heap may hold at other positions; every other key keeps its timer and its
      recorded position; and off the heap is the entry that stood at the recorded position. */
  lemma CancelExact(c: Collector, key: Str)
    requires CollectorOk(c)
    ensures Cancel(c, key).Err? <==> PastEnd(c.near, key)
    ensures Cancel(c, key).Ok? ==>
              var d := Cancel(c, key).value;
              CollectorOk(d) && Unscheduled(d, key) && T.Timers(d.wheel) == T.Timers(c.wheel) - {key} &&
              d.near.index == c.near.index - {key} && d.pending == c.pending &&
              N.Bag(d.near.heap) == if key in c.near.index then
                                      N.Bag(c.near.heap) - multiset{N.Item(c.near.heap[c.near.index[key]])}
                                    else N.Bag(c.near.heap)
  {
    CancelHeap(c, key);
    CancelClearsWheel(c, key);
    T.RemoveRefines(c.wheel, key);
    W.RemoveKeepsOk(c.wheel, key);
    if key in c.near.index && !PastEnd(c.near, key) {
      RemoveAtExact(c.near, c.near.index[key], false);
    }
    hide N.RemoveAt, N.Bag, T.Timers, W.Remove;
  }

  /** A Schedule without a ttl is a Cancel: of an earlier schedule of the key nothing is left. */
  lemma ScheduleWithoutTtl(c: Collector, key: Str, ttl: int, createdAt: int, clk: Clock)
    requires CollectorOk(c) && ttl <= 0
    ensures var r := Schedule(c, key, ttl, createdAt, clk);
            (r.Err? <==> PastEnd(c.near, key)) &&
            (r.Ok? ==>
               var d := r.value;
               CollectorOk(d) && Unscheduled(d, key) && T.Timers(d.wheel) == T.Timers(c.wheel) - {key} &&
               d.near.index == c.near.index - {key} && d.pending == c.pending &&
               N.Bag(d.near.heap) == if key in c.near.index then
                                       N.Bag(c.near.heap) - multiset{N.Item(c.near.heap[c.near.index[key]])}
                                     else N.Bag(c.near.heap))
  {
    hide Cancel, CollectorOk, PastEnd, Unscheduled, N.Bag, T.Timers;
    CancelExact(c, key);
  }

  lemma SchedulesAsAsked(c: Collector, key: Str, ttl: int, createdAt: int, clk: Clock)
    requires CollectorOk(c)
    ensures Schedule(c, key, ttl, createdAt, clk).Ok? ==>
              ScheduledAsAsked(Schedule(c, key, ttl, createdAt, clk).value, key, ttl)
  {
    assert W.Shape(c.wheel);
    hide Schedule, CollectorOk, Unscheduled;
    if ttl <= 0 {
      ScheduleWithoutTtl(c, key, ttl, createdAt, clk);
    } else if Schedule(c, key, ttl, createdAt, clk).Ok? {
      ScheduleCovers(c, key, ttl, createdAt, clk);
    }
  }
}

module DeleteCoalescers {
  import opened GoTypes

  class DeleteCoalescer {
    var pending: set<Str>
    const flushMs: int

    constructor (flushMs: int)
      ensures pending == {}
      ensures this.flushMs == if flushMs < 5 then 5 else if flushMs > 50 then 50 else flushMs
    {
      pending := {};
      this.flushMs := if flushMs < 5 then 5 else if flushMs > 50 then 50 else flushMs;
    }

    method Enqueue(key: Str)
      modifies this
      ensures pending == old(pending) + {key}
    {
      pending := pending + {key};
    }

    method EnqueueBatch(keys: seq<Str>)
      modifies this
      ensures pending == old(pending) + AsSet(keys)
    {
      for i := 0 to |keys|
        invariant pending == old(pending) + AsSet(keys[..i])
      {
        assert AsSet(keys[..i + 1]) == AsSet(keys[..i]) + {keys[i]};
        pending := pending + {keys[i]};
      }
      assert keys[..|keys|] == keys;
    }

    /** The part of flush under the lock: every pending key once, in no particular order, goes into
        the batch that flush then hands to deleteBatch, and none stays pending. */
    method TakePending() returns (keys: seq<Str>)
      modifies this
      ensures pending == {} && NoDuplicates(keys) && AsSet(keys) == old(pending)
    {
      keys := [];
      if pending == {} {
        return;
      }
      var rest := pending;
      while rest != {}
        invariant NoDuplicates(keys) && AsSet(keys) !! rest && AsSet(keys) + rest == pending
        decreases rest
      {
        var k :| k in rest;
        assert k !in keys by { assert k !in AsSet(keys); }
        assert AsSet(keys + [k]) == AsSet(keys) + {k};
        keys := keys + [k];
        rest := rest - {k};
      }
      pending := {};
    }
  }
}

module GarbageCollectors {
  import opened GoTypes
  import opened CollectorModel
  import opened HashedWheels
  import opened NearQueues
  import opened DeleteCoalescers
  import W = WheelModel
  import N = NearModel

  const DEFAULT_WHEEL_SLOTS := 2048
  const DEFAULT_WHEEL_TICK_MS := 500
  const DEFAULT_COALESCER_MS := 10

  class GarbageCollector {
    const wheel: HashedWheel
    const nearQueue: NearQueue
    const coalescer: DeleteCoalescer

    ghost predicate Valid()
      reads this, wheel, wheel.slots, nearQueue
    {
      wheel.Valid() && nearQueue.Valid()
    }

    ghost function View(): Collector
      reads this, wheel, wheel.slots, nearQueue, coalescer
    {
      Collector(wheel.View(), nearQueue.View(), nearQueue.windowMs, coalescer.pending)
    }

    constructor (nowMs: int)
      ensures Valid() && fresh({wheel, wheel.slots, nearQueue, coalescer})
      ensures View() == Collector(W.Wheel(seq(2048, _ => []), 0, 500, map[]), N.Near([], map[]), 2000, {})
    {
      wheel := new HashedWheel(DEFAULT_WHEEL_SLOTS, DEFAULT_WHEEL_TICK_MS, nowMs);
      nearQueue := new NearQueue(DEFAULT_NEAR_WINDOW_MS);
      coalescer := new DeleteCoalescer(DEFAULT_COALESCER_MS);
    }

    lemma ScheduleOutcome(key: Str, ttl: int, createdAt: int, clk: Clock)
      requires Valid()
      ensures W.Shape(wheel.View())
      ensures var r := CollectorModel.Schedule(View(), key, ttl, createdAt, clk);
              (r.Ok? ==> ScheduledAsAsked(r.value, key, ttl)) && (ttl <= 0 ==> (r.Err? <==> PastEnd(View().near, key)))
    {
      assert CollectorOk(View());
      hide CollectorModel.Schedule, CollectorOk, ScheduledAsAsked, PastEnd, Valid;
      SchedulesAsAsked(View(), key, ttl, createdAt, clk);
      if ttl <= 0 {
        ScheduleWithoutTtl(View(), key, ttl, createdAt, clk);
      }
    }

    method Schedule(key: Str, ttl: int, createdAt: int, clk: Clock) returns (panicked: bool)
      requires Valid() && ClockOk(clk, wheel.tickMs)
      modifies wheel, wheel.slots, nearQueue
      ensures Valid()
      ensures match CollectorModel.Schedule(old(View()), key, ttl, createdAt, clk)
              case Ok(c) => !panicked && View() == c
              case Err => panicked && View() == old(View())
      ensures !panicked ==> ScheduledAsAsked(View(), key, ttl)
      ensures ttl <= 0 ==> (panicked <==> PastEnd(old(View()).near, key))
    {
      hide ScheduledAsAsked, PastEnd, N.Add, W.Add, CollectorModel.Cancel, W.Shape, HashedWheel.Valid,
        NearQueue.Valid;
      ScheduleOutcome(key, ttl, createdAt, clk);
      if ttl <= 0 {
        panicked := Cancel(key);
        return;
      }
      var expireAt := createdAt + ttl;
      var added, crashed := nearQueue.Add(key, expireAt, clk.cachedNow);
      if crashed {
        return true;
      }
      if !added {
        wheel.Add(key, expireAt, clk.smear, clk.wallMs);
      }
      return false;
    }

    method Cancel(key: Str) returns (panicked: bool)
      requires Valid()
      modifies wheel, wheel.slots, nearQueue
      ensures Valid()
      ensures match CollectorModel.Cancel(old(View()), key)
              case Ok(c) => !panicked && View() == c
              case Err => panicked && View() == old(View())
    {
      var crashed := nearQueue.Remove(key);
      if crashed {
        return true;
      }
      wheel.Remove(key);
      return false;
    }

    method ScheduleDelete(key: Str)
      modifies coalescer
      ensures View() == CollectorModel.ScheduleDelete(old(View()), key)
    {
      coalescer.Enqueue(key);
    }

    method NearTick(cachedNow: int)
      requires Valid()
      modifies nearQueue, coalescer
      ensures Valid() && View() == CollectorModel.NearTick(old(View()), cachedNow)
    {
      ghost var popped := N.Drain(nearQueue.View(), TruncDiv(cachedNow, NANOS_PER_MILLI), false).1;
      var expired := nearQueue.DrainExpired(cachedNow);
      coalescer.EnqueueBatch(expired);
      forall k
        ensures k in AsSet(expired) <==> k in set e | e in popped :: e.key
      {
        assert forall i :: 0 <= i < |popped| ==> expired[i] == popped[i].key;
      }
    }

    method WheelTick(wallMs: int)
      requires Valid()
      modifies wheel, wheel.slots, coalescer
      ensures Valid() && View() == CollectorModel.WheelTick(old(View()), wallMs)
    {
      var expired := wheel.Advance(wallMs);
      coalescer.EnqueueBatch(expired);
    }
  }
}
