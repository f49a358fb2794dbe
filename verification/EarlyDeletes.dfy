/** When the collector hands a key over while its entry may still be read. The service lets an
    entry expire ttl seconds after its creation, the collector schedules the key ttl nanoseconds
    after it. Each way to the coalescer has its exact condition here: the near queue, from a tick's
    clock, and the wheel, from the clock of an Advance. */
module EarlyDeletes {
  import opened GoTypes
  import opened CollectorModel
  import opened Entries
  import opened NearQueueProofs
  import opened NearQueueRepaired
  import N = NearModel
  import W = WheelModel
  import T = WheelTimers

  const NANOS_PER_SECOND := 1_000_000_000

  /** ExpiresAt, as the service sets it for a positive ttl. */
  function ServiceExpiry(ttl: int, createdAt: int): int {
    createdAt + ttl * NANOS_PER_SECOND
  }

  /** A Get at this moment does not find the entry expired. */
  predicate Readable(ttl: int, createdAt: int, now: int) {
    now <= ServiceExpiry(ttl, createdAt)
  }

  lemma ReadableIsRead(e: StorageEntry, ttl: int, createdAt: int, now: int, cachedNow: int)
    requires e.expiresAt == Some(ServiceExpiry(ttl, createdAt)) && !e.singleRead
    ensures Read(e, now, cachedNow).1.Some? <==> Readable(ttl, createdAt, now)
  {
  }

  // ---------- Milliseconds ----------

  /** The first nanosecond that counts as millisecond ms or a later one. */
  function FirstDue(ms: int): int {
    if ms > 0 then ms * NANOS_PER_MILLI else (ms - 1) * NANOS_PER_MILLI + 1
  }

  lemma DueFrom(t: int, ms: int)
    ensures DeadlineMs(t) >= ms <==> t >= FirstDue(ms)
  {
  }

  lemma WindowLater(t: int, windowMs: nat)
    ensures DeadlineMs(t + windowMs * NANOS_PER_MILLI) <= DeadlineMs(t) + windowMs
  {
    DueFrom(t + windowMs * NANOS_PER_MILLI, DeadlineMs(t) + windowMs + 1);
    DueFrom(t, DeadlineMs(t) + 1);
  }

  // ---------- Near queue or wheel ----------

  /** The latest deadline, exclusive, that the near queue still takes. */
  function NearLimit(c: Collector, clk: Clock): int {
    FirstDue(DeadlineMs(clk.cachedNow) + c.windowMs + 1)
  }

  /** A key goes to the near queue exactly if its deadline lies below the limit of the cached clock. */
  lemma NearOrWheel(c: Collector, key: Str, ttl: int, createdAt: int, clk: Clock)
    requires CollectorOk(c) && ttl > 0
    ensures var r := Schedule(c, key, ttl, createdAt, clk);
            if createdAt + ttl < NearLimit(c, clk) then
              r.Ok? ==> r.value.wheel == c.wheel && key in r.value.near.index
            else
              r.Ok? && r.value.near == c.near && key in r.value.wheel.keyIndex
  {
    DueFrom(createdAt + ttl, DeadlineMs(clk.cachedNow) + c.windowMs + 1);
    W.AddKeepsOk(c.wheel, key, createdAt + ttl + clk.smear, clk.wallMs);
    NearAddIndex(c.near, key, createdAt + ttl, DeadlineMs(clk.cachedNow), c.windowMs);
    hide W.Add, N.Push, N.DownElseUp, W.WheelOk;
  }

  /** With a cached clock at most lag behind the creation, a ttl that is, with the lag, within the
      window as nanoseconds never reaches the wheel. */
  lemma SmallTtlStaysNear(c: Collector, key: Str, ttl: int, createdAt: int, clk: Clock, lag: int)
    requires CollectorOk(c) && c.windowMs >= 0
    requires createdAt <= clk.cachedNow + lag && 0 < ttl && ttl + lag <= c.windowMs * NANOS_PER_MILLI
    ensures createdAt + ttl < NearLimit(c, clk)
    ensures var r := Schedule(c, key, ttl, createdAt, clk); r.Ok? ==> r.value.wheel == c.wheel
  {
    var latest := clk.cachedNow + c.windowMs * NANOS_PER_MILLI;
    WindowLater(clk.cachedNow, c.windowMs);
    TruncDivMonotone(createdAt + ttl, latest, NANOS_PER_MILLI);
    DueFrom(createdAt + ttl, DeadlineMs(clk.cachedNow) + c.windowMs + 1);
    NearOrWheel(c, key, ttl, createdAt, clk);
  }

  /** The ordinary case: created a little after the cached clock, one nanosecond of ttl too many. */
  lemma LagReachesTheWheel(c: Collector, key: Str, clk: Clock)
    requires CollectorOk(c) && c.windowMs == 2000 && clk.cachedNow == 0
    ensures var r := Schedule(c, key, 2000 * NANOS_PER_MILLI - 1, 9 * NANOS_PER_MILLI, clk);
            r.Ok? && key in r.value.wheel.keyIndex
  {
    NearOrWheel(c, key, 2000 * NANOS_PER_MILLI - 1, 9 * NANOS_PER_MILLI, clk);
  }

  // ---------- The near queue ----------

  /** The heap holds this deadline for the key, and no other. */
  ghost predicate OnlyDeadline(q: N.Near, key: Str, deadline: int) {
    forall x :: (key, x) in N.Bag(q.heap) <==> x == deadline
  }

  /** Whatever the position map says, a near tick hands over exactly the keys with a due entry. */
  lemma NearTickHandsOver(c: Collector, cachedNow: int, key: Str)
    requires NearOk(c.near.heap)
    ensures key in NearTick(c, cachedNow).pending <==>
              key in c.pending || exists x :: (key, x) in N.Bag(c.near.heap) && DeadlineMs(x) <= DeadlineMs(cachedNow)
  {
    hide N.Drain, N.Bag;
    var (r, popped) := N.Drain(c.near, DeadlineMs(cachedNow), false);
    DrainExact(c.near, DeadlineMs(cachedNow), false);
    forall x | (key, x) in N.Bag(c.near.heap) && DeadlineMs(x) <= DeadlineMs(cachedNow)
      ensures exists e :: e in popped && e.key == key
    {
      BagMember(popped, (key, x));
      BagMember(r.heap, (key, x));
    }
    forall e | e in popped && e.key == key
      ensures (key, e.expireAt) in N.Bag(c.near.heap) && DeadlineMs(e.expireAt) <= DeadlineMs(cachedNow)
    {
      BagMember(popped, (key, e.expireAt));
    }
  }

  /** The key's timer is through with its delay, and its deadline has passed. */
  ghost predicate Fires(w: W.Wheel, key: Str, wallMs: int)
    requires W.WheelOk(w)
  {
    key in w.keyIndex && T.TimerOf(w, key).due == 0 && DeadlineMs(T.TimerOf(w, key).expireAt) <= wallMs
  }

  /** A tick of the wheel hands over exactly the keys whose timer fires. */
  lemma WheelTickHandsOver(c: Collector, wallMs: int, key: Str)
    requires W.WheelOk(c.wheel)
    ensures key in WheelTick(c, wallMs).pending <==> key in c.pending || Fires(c.wheel, key, wallMs)
  {
    T.AdvanceRefines(c.wheel, wallMs);
    hide W.Advance, W.Expired, T.TimerOf;
  }

  /** The key is in order: the queue's map is right, or the queue has nothing of the key. */
  ghost predicate KeyClean(q: N.Near, key: Str) {
    N.Agreement(q) || (key !in q.index && forall x :: (key, x) !in N.Bag(q.heap))
  }

  /** After Schedule has used the near queue, the key has one deadline there: ttl nanoseconds after
      its creation. */
  lemma NearScheduled(c: Collector, key: Str, ttl: int, createdAt: int, clk: Clock)
    requires CollectorOk(c) && NearOk(c.near.heap) && KeyClean(c.near, key)
    requires ttl > 0 && createdAt + ttl < NearLimit(c, clk)
    ensures var r := Schedule(c, key, ttl, createdAt, clk);
            r.Ok? && r.value.pending == c.pending && r.value.wheel == c.wheel &&
            NearOk(r.value.near.heap) && OnlyDeadline(r.value.near, key, createdAt + ttl)
  {
    hide NearOk, N.Bag;
    var deadline, nowMs := createdAt + ttl, DeadlineMs(clk.cachedNow);
    DueFrom(deadline, nowMs + c.windowMs + 1);
    OperationsKeepOrder(c.near, key, deadline, nowMs, c.windowMs, false);
    if N.Agreement(c.near) {
      AgreedAdd(c.near, key, deadline, nowMs, c.windowMs);
    } else {
      FirstAdd(c.near, key, deadline, nowMs, c.windowMs);
    }
  }

  lemma FirstAdd(q: N.Near, key: Str, deadline: int, nowMs: int, windowMs: int)
    requires key !in q.index && (forall x :: (key, x) !in N.Bag(q.heap)) && DeadlineMs(deadline) - nowMs <= windowMs
    ensures var a := N.Add(q, key, deadline, nowMs, windowMs, false); a.Done? && OnlyDeadline(a.q, key, deadline)
  {
    PushExact(q, N.NearEntry(key, deadline, 0), false);
    hide N.Push, N.Bag;
  }

  /** The code's Add and the repaired one put the same entries on the heap, in different places. */
  lemma AgreedAdd(q: N.Near, key: Str, deadline: int, nowMs: int, windowMs: int)
    requires N.Agreement(q) && DeadlineMs(deadline) - nowMs <= windowMs
    ensures var a := N.Add(q, key, deadline, nowMs, windowMs, false); a.Done? && OnlyDeadline(a.q, key, deadline)
  {
    SameBags(q, key, deadline, nowMs, windowMs);
    RepairedAdd(q, key, deadline, nowMs, windowMs);
    var r := N.Add(q, key, deadline, nowMs, windowMs, true).q;
    hide N.Add, N.Bag;
    forall x
      ensures (key, x) in N.Bag(r.heap) <==> x == deadline
    {
      BagIsMap(r, key, x);
    }
  }

  lemma SameBags(q: N.Near, key: Str, deadline: int, nowMs: int, windowMs: int)
    requires N.Agreement(q) && DeadlineMs(deadline) - nowMs <= windowMs
    ensures var a, b := N.Add(q, key, deadline, nowMs, windowMs, false), N.Add(q, key, deadline, nowMs, windowMs, true);
            a.Done? && b.Done? && N.Bag(a.q.heap) == N.Bag(b.q.heap)
  {
    AddBag(q, key, deadline, nowMs, windowMs, false);
    AddBag(q, key, deadline, nowMs, windowMs, true);
    hide N.Add, N.Bag;
  }

  /** What Add makes of the entries, whichever Swap it uses. */
  lemma AddBag(q: N.Near, key: Str, deadline: int, nowMs: int, windowMs: int, repaired: bool)
    requires N.Agreement(q) && DeadlineMs(deadline) - nowMs <= windowMs
    ensures var a := N.Add(q, key, deadline, nowMs, windowMs, repaired);
            a.Done? && N.Bag(a.q.heap) == (if key in q.index then N.Bag(q.heap) - multiset{N.Item(q.heap[q.index[key]])}
                                           else N.Bag(q.heap)) + multiset{(key, deadline)}
  {
    hide N.Push, N.DownElseUp, N.Bag, NearOk;
    if key in q.index {
      FixExact(q, q.index[key], deadline, repaired);
    } else {
      PushExact(q, N.NearEntry(key, deadline, 0), repaired);
    }
  }

  /** A key scheduled on the near queue is handed over by a tick while its entry can still be read,
      exactly if the tick's cached clock has reached the ttl in nanoseconds, cut to milliseconds, and
      the wall clock has not passed the ttl in seconds. */
  lemma NearEarlyIff(c: Collector, key: Str, ttl: int, createdAt: int, clk: Clock, cachedNow: int, now: int)
    requires CollectorOk(c) && NearOk(c.near.heap) && KeyClean(c.near, key) && key !in c.pending
    requires ttl > 0 && createdAt + ttl < NearLimit(c, clk)
    ensures var r := Schedule(c, key, ttl, createdAt, clk);
            r.Ok? &&
            (key in NearTick(r.value, cachedNow).pending && Readable(ttl, createdAt, now) <==>
             FirstDue(DeadlineMs(createdAt + ttl)) <= cachedNow && now <= createdAt + ttl * NANOS_PER_SECOND)
  {
    NearScheduled(c, key, ttl, createdAt, clk);
    var s := Schedule(c, key, ttl, createdAt, clk).value;
    NearTickHandsOver(s, cachedNow, key);
    DueFrom(cachedNow, DeadlineMs(createdAt + ttl));
    hide Schedule, NearTick, DeadlineMs, FirstDue, N.Bag, NearOk;
    assert (key, createdAt + ttl) in N.Bag(s.near.heap);
  }

  /** A near tick with this cached clock is early, the wall clock being ahead of it by lag. */
  ghost predicate EarlyAt(ttl: int, createdAt: int, cachedNow: int, lag: int) {
    FirstDue(DeadlineMs(createdAt + ttl)) <= cachedNow && Readable(ttl, createdAt, cachedNow + lag)
  }

  /** Some near tick is early exactly if the lag of the cached clock leaves room between the two
      deadlines, which it does for every ttl unless it is about as long as the ttl itself. */
  lemma EarlyPossibleIff(ttl: int, createdAt: int, lag: int)
    requires ttl > 0
    ensures (exists cachedNow: int :: EarlyAt(ttl, createdAt, cachedNow, lag)) <==>
            FirstDue(DeadlineMs(createdAt + ttl)) + lag <= ServiceExpiry(ttl, createdAt)
    ensures lag <= ttl * (NANOS_PER_SECOND - 1) ==> exists cachedNow: int :: EarlyAt(ttl, createdAt, cachedNow, lag)
  {
    var first := FirstDue(DeadlineMs(createdAt + ttl));
    DueFrom(createdAt + ttl, DeadlineMs(createdAt + ttl));
    if first + lag <= ServiceExpiry(ttl, createdAt) {
      assert EarlyAt(ttl, createdAt, first, lag);
    }
  }

  // ---------- Any number of near ticks ----------

  function NearTicks(c: Collector, clocks: seq<int>): Collector
    decreases |clocks|
  {
    if clocks == [] then c else NearTicks(NearTick(c, clocks[0]), clocks[1..])
  }

  /** The first tick whose clock has reached the deadline hands the key over, and none before. */
  lemma {:induction false} FirstDueTick(c: Collector, key: Str, deadline: int, clocks: seq<int>)
    requires NearOk(c.near.heap) && OnlyDeadline(c.near, key, deadline) && key !in c.pending
    ensures key in NearTicks(c, clocks).pending <==>
              exists i :: 0 <= i < |clocks| && FirstDue(DeadlineMs(deadline)) <= clocks[i]
    decreases |clocks|
  {
    hide FirstDue, DeadlineMs, NearTick, N.Bag, NearOk;
    if clocks != [] {
      var t := NearTick(c, clocks[0]);
      NearTickHandsOver(c, clocks[0], key);
      DueFrom(clocks[0], DeadlineMs(deadline));
      assert (key, deadline) in N.Bag(c.near.heap);
      if key in t.pending {
        PendingStays(t, key, clocks[1..]);
      } else {
        TickKeeps(c, key, deadline, clocks[0]);
        FirstDueTick(t, key, deadline, clocks[1..]);
        LaterTick(clocks, FirstDue(DeadlineMs(deadline)));
      }
    }
  }

  lemma LaterTick(clocks: seq<int>, due: int)
    requires clocks != [] && clocks[0] < due
    ensures (exists i :: 0 <= i < |clocks| && due <= clocks[i]) <==>
            exists i :: 0 <= i < |clocks[1..]| && due <= clocks[1..][i]
  {
    forall i | 0 <= i < |clocks| && due <= clocks[i]
      ensures 0 <= i - 1 < |clocks[1..]| && due <= clocks[1..][i - 1]
    {
    }
    forall i | 0 <= i < |clocks[1..]| && due <= clocks[1..][i]
      ensures i + 1 < |clocks| && due <= clocks[i + 1]
    {
    }
  }

  lemma {:induction false} PendingStays(c: Collector, key: Str, clocks: seq<int>)
    requires key in c.pending
    ensures key in NearTicks(c, clocks).pending
    decreases |clocks|
  {
    hide N.Drain;
    if clocks != [] {
      PendingStays(NearTick(c, clocks[0]), key, clocks[1..]);
    }
  }

  lemma TickKeeps(c: Collector, key: Str, deadline: int, clock: int)
    requires NearOk(c.near.heap) && OnlyDeadline(c.near, key, deadline) && DeadlineMs(clock) < DeadlineMs(deadline)
    ensures var t := NearTick(c, clock); NearOk(t.near.heap) && OnlyDeadline(t.near, key, deadline)
  {
    hide N.Drain, N.Bag, NearOk;
    var (r, popped) := N.Drain(c.near, DeadlineMs(clock), false);
    DrainExact(c.near, DeadlineMs(clock), false);
    forall x
      ensures (key, x) in N.Bag(r.heap) <==> x == deadline
    {
      BagMember(popped, (key, x));
      assert (key, x) in N.Bag(c.near.heap) <==> x == deadline;
    }
  }

  // ---------- The wheel ----------

  /** A key scheduled on the wheel is handed over by an Advance at wall clock now while its entry can
      still be read, exactly if that is the first Advance to look at the smeared deadline late enough,
      and the ttl in seconds has not passed. */
  lemma WheelEarlyIff(c: Collector, key: Str, ttl: int, createdAt: int, clk: Clock, ops: seq<T.Op>, i: nat, now: int)
    requires CollectorOk(c) && ttl > 0 && createdAt + ttl >= NearLimit(c, clk)
    requires forall x :: 0 <= x < |ops| ==> T.Spares(ops[x], key)
    requires i < |ops| && ops[i].AdvanceOp?
    ensures var r := Schedule(c, key, ttl, createdAt, clk);
            var deadline := createdAt + ttl + clk.smear;
            r.Ok? && W.WheelOk(r.value.wheel) && |T.AdvanceTimes(ops[..i])| < |T.AdvanceTimes(ops)| &&
            (key in T.Run(r.value.wheel, ops).1[i] && Readable(ttl, createdAt, now) <==>
             T.LateEnough(deadline, T.AdvanceTimes(ops), W.Ticks(deadline, clk.wallMs, c.wheel.tickMs),
                          |T.AdvanceTimes(ops[..i])|, |c.wheel.slots|) &&
             now <= createdAt + ttl * NANOS_PER_SECOND)
  {
    DueFrom(createdAt + ttl, DeadlineMs(clk.cachedNow) + c.windowMs + 1);
    hide W.WheelOk, W.Add, T.Run, T.LateEnough, T.AdvanceTimes, T.Spares, FirstDue;
    T.ReturnedExactly(c.wheel, key, createdAt + ttl + clk.smear, clk.wallMs, ops, i);
  }

  // ---------- The schedule before ----------

  /** Scheduling a key again leaves alone what the queue that does not get the new schedule has of it: a
      tick of that queue hands the key over at the old time. */
  lemma OldScheduleStays(c: Collector, key: Str, ttl: int, createdAt: int, clk: Clock, tickMs: int, cachedNow: int)
    requires CollectorOk(c) && NearOk(c.near.heap) && ttl > 0
    ensures var r := Schedule(c, key, ttl, createdAt, clk);
            r.Ok? ==>
              if createdAt + ttl < NearLimit(c, clk) then
                key in WheelTick(r.value, tickMs).pending <==> key in c.pending || Fires(c.wheel, key, tickMs)
              else
                key in NearTick(r.value, cachedNow).pending <==>
                key in c.pending || exists x :: (key, x) in N.Bag(c.near.heap) && DeadlineMs(x) <= DeadlineMs(cachedNow)
  {
    assert W.WheelOk(c.wheel) && W.Shape(c.wheel);
    hide W.WheelOk, NearOk, N.Bag, N.Drain, W.Advance, W.Expired, NearLimit, Fires, N.Add, W.Add, CollectorOk;
    NearOrWheel(c, key, ttl, createdAt, clk);
    if Schedule(c, key, ttl, createdAt, clk).Ok? {
      var r := Schedule(c, key, ttl, createdAt, clk).value;
      if createdAt + ttl < NearLimit(c, clk) {
        WheelTickHandsOver(r, tickMs, key);
      } else {
        NearTickHandsOver(r, cachedNow, key);
      }
    }
  }

  // ---------- One minute that is over at once ----------

  const KEY: Str := [107]

  /** An entry with a ttl of 60, stored and swept in the same millisecond: its key is handed over, and
      it may be read for another 60 seconds. */
  lemma OneMinuteGoneAtOnce(wheel: W.Wheel, clk: Clock)
    requires W.WheelOk(wheel) && wheel.tickMs >= 100 && clk.cachedNow == 0
    ensures var c := Collector(wheel, N.Near([], map[]), 2000, {});
            var r := Schedule(c, KEY, 60, 0, clk);
            r.Ok? && KEY in NearTick(r.value, 0).pending &&
            forall now :: now <= 60 * NANOS_PER_SECOND ==> Readable(60, 0, now)
  {
    var c := Collector(wheel, N.Near([], map[]), 2000, {});
    assert N.Agreement(c.near);
    NearEarlyIff(c, KEY, 60, 0, clk, 0, 0);
  }
}
