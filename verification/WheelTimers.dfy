/** The reference definition of the timing wheel: a map from keys to countdown timers, with no
    slots, positions or rounds. The wheel refines it, and its timing promises are proved here
    for every run of Adds, Removes and Advances. */
module WheelTimers {
  import opened GoTypes
  import opened WheelModel

  /** due Advances pass before the deadline is looked at; it is looked at again every n-th Advance. */
  datatype Timer = Timer(due: nat, expireAt: int)

  function Step(t: Timer, nowMs: int, n: nat): Option<Timer>
    requires n > 0
  {
    if t.due > 0 then Some(t.(due := t.due - 1))
    else if DeadlineMs(t.expireAt) <= nowMs then None
    else Some(t.(due := n - 1))
  }

  // ---------- Abstraction ----------

  /** How many slots, of n in a circle, slot s lies ahead of pos. */
  function Offset(pos: nat, s: nat, n: nat): nat
    requires pos < n && s < n
  {
    if s >= pos then s - pos else s - pos + n
  }

  function Times(rounds: nat, n: nat): nat {
    if rounds == 0 then 0 else n + Times(rounds - 1, n)
  }

  lemma {:induction false} TimesIsProduct(rounds: nat, n: nat)
    ensures Times(rounds, n) == rounds * n
  {
    if rounds > 0 {
      TimesIsProduct(rounds - 1, n);
    }
  }

  function Due(pos: nat, s: nat, rounds: nat, n: nat): nat
    requires pos < n && s < n
  {
    Offset(pos, s, n) + Times(rounds, n)
  }

  ghost function EntryOf(w: Wheel, k: Str): WheelEntry
    requires WheelOk(w) && k in w.keyIndex
  {
    var e :| e in w.slots[w.keyIndex[k]] && e.key == k; e
  }

  ghost function TimerOf(w: Wheel, k: Str): Timer
    requires WheelOk(w) && k in w.keyIndex
  {
    var e := EntryOf(w, k);
    Timer(Due(w.pos, w.keyIndex[k], e.rounds, |w.slots|), e.expireAt)
  }

  ghost function Timers(w: Wheel): map<Str, Timer>
    requires WheelOk(w)
  {
    map k | k in w.keyIndex :: TimerOf(w, k)
  }

  lemma EntryIs(w: Wheel, s: int, e: WheelEntry)
    requires WheelOk(w) && 0 <= s < |w.slots| && e in w.slots[s]
    ensures e.key in w.keyIndex && w.keyIndex[e.key] == s && EntryOf(w, e.key) == e
  {
    OneEntryPerKey(w.slots[s], e, EntryOf(w, e.key));
  }

  lemma TimersAre(w: Wheel, m: map<Str, Timer>)
    requires WheelOk(w) && w.keyIndex.Keys == m.Keys
    requires forall k :: k in m ==> TimerOf(w, k) == m[k]
    ensures Timers(w) == m
  {
  }

  // ---------- One operation ----------

  /** Where Add puts an entry that is ticks away. */
  lemma SlotAndRounds(pos: nat, ticks: nat, n: nat)
    requires pos < n
    ensures var slot := (pos + ticks) % n;
            Due(pos, slot, ticks / n, n) == ticks
  {
    var q, r := ticks / n, ticks % n;
    TimesIsProduct(q, n);
    assert ticks == n * q + r;
    if pos + r < n {
      ModUnique(pos + ticks, n, q, pos + r);
    } else {
      assert n * (q + 1) == n * q + n;
      ModUnique(pos + ticks, n, q + 1, pos + r - n);
    }
  }

  lemma PlacedTimer(w: Wheel, slot: int, e: WheelEntry, k: Str)
    requires WheelOk(w) && 0 <= slot < |w.slots| && e.key !in w.keyIndex && e.rounds >= 0
    requires k == e.key || k in w.keyIndex
    ensures WheelOk(Place(w, slot, e)) && k in Place(w, slot, e).keyIndex
    ensures TimerOf(Place(w, slot, e), k) ==
            if k == e.key then Timer(Due(w.pos, slot, e.rounds, |w.slots|), e.expireAt) else TimerOf(w, k)
  {
    PlaceKeepsOk(w, slot, e);
    var a := Place(w, slot, e);
    if k == e.key {
      EntryIs(a, slot, e);
    } else {
      EntryIs(a, w.keyIndex[k], EntryOf(w, k));
    }
  }

  /** So many ticks fit into the delay and one more does not; into a negative delay fits none. */
  ghost predicate FullTicks(t: nat, delay: int, tickMs: nat) {
    && Times(t, tickMs) <= (if delay < 0 then 0 else delay)
    && delay < Times(t + 1, tickMs)
  }

  lemma TicksExact(expireAt: int, nowMs: int, tickMs: nat)
    requires tickMs > 0
    ensures FullTicks(Ticks(expireAt, nowMs, tickMs), DeadlineMs(expireAt) - nowMs, tickMs)
  {
    var t := Ticks(expireAt, nowMs, tickMs);
    TimesIsProduct(t, tickMs);
    var delay := if DeadlineMs(expireAt) - nowMs < 0 then 0 else DeadlineMs(expireAt) - nowMs;
    assert delay == tickMs * t + delay % tickMs;
  }

  lemma RemoveRefines(w: Wheel, key: Str)
    requires WheelOk(w)
    ensures WheelOk(Remove(w, key)) && Timers(Remove(w, key)) == Timers(w) - {key}
  {
    RemoveKeepsOk(w, key);
    var r := Remove(w, key);
    assert r.keyIndex.Keys == w.keyIndex.Keys - {key};
    hide TimerOf, HasKey, DistinctKeys, RemoveFirst;
    forall k | k in w.keyIndex && k != key
      ensures k in r.keyIndex && TimerOf(r, k) == TimerOf(w, k)
    {
      RemovedTimer(w, key, k);
    }
    TimersAre(r, Timers(w) - {key});
  }

  lemma RemovedTimer(w: Wheel, key: Str, k: Str)
    requires WheelOk(w) && WheelOk(Remove(w, key)) && k in w.keyIndex && k != key
    ensures k in Remove(w, key).keyIndex && TimerOf(Remove(w, key), k) == TimerOf(w, k)
  {
    RemoveKeepsOk(w, key);
    EntryIs(Remove(w, key), w.keyIndex[k], EntryOf(w, k));
  }

  lemma AddRefines(w: Wheel, key: Str, expireAt: int, nowMs: int)
    requires WheelOk(w)
    ensures WheelOk(Add(w, key, expireAt, nowMs))
    ensures Timers(Add(w, key, expireAt, nowMs)) ==
            Timers(w)[key := Timer(Ticks(expireAt, nowMs, w.tickMs), expireAt)]
    ensures FullTicks(Ticks(expireAt, nowMs, w.tickMs), DeadlineMs(expireAt) - nowMs, w.tickMs)
  {
    TicksExact(expireAt, nowMs, w.tickMs);
    AddKeepsOk(w, key, expireAt, nowMs);
    var m := Timers(w)[key := Timer(Ticks(expireAt, nowMs, w.tickMs), expireAt)];
    assert m.Keys == w.keyIndex.Keys + {key};
    forall k | k in m
      ensures TimerOf(Add(w, key, expireAt, nowMs), k) == m[k]
    {
      AddedTimer(w, key, expireAt, nowMs, k);
    }
    TimersAre(Add(w, key, expireAt, nowMs), m);
  }

  lemma AddedTimer(w: Wheel, key: Str, expireAt: int, nowMs: int, k: Str)
    requires WheelOk(w) && WheelOk(Add(w, key, expireAt, nowMs)) && k in w.keyIndex.Keys + {key}
    ensures k in Add(w, key, expireAt, nowMs).keyIndex
    ensures TimerOf(Add(w, key, expireAt, nowMs), k) ==
            if k == key then Timer(Ticks(expireAt, nowMs, w.tickMs), expireAt) else Timers(w)[k]
  {
    RemoveRefines(w, key);
    var r := Remove(w, key);
    RemoveKeepsOk(w, key);
    var slot, e := AddShape(w, key, expireAt, nowMs);
    SlotAndRounds(w.pos, Ticks(expireAt, nowMs, w.tickMs), |w.slots|);
    assert k != key ==> k in Timers(r) && Timers(r)[k] == Timers(w)[k];
    PlacedTimer(r, slot, e, k);
  }

  /** One Advance lets every timer take one step; it returns, once each, the keys that fire. */
  lemma AdvanceRefines(w: Wheel, nowMs: int)
    requires WheelOk(w)
    ensures WheelOk(Advance(w, nowMs)) && NoDuplicates(Expired(w, nowMs))
    ensures forall k :: k in w.keyIndex ==>
              (k in Expired(w, nowMs) <==> Step(TimerOf(w, k), nowMs, |w.slots|).None?)
    ensures forall k :: k in Expired(w, nowMs) ==> k in w.keyIndex
    ensures forall k :: k in Advance(w, nowMs).keyIndex <==> k in w.keyIndex && k !in Expired(w, nowMs)
    ensures forall k :: k in Advance(w, nowMs).keyIndex ==>
              Step(TimerOf(w, k), nowMs, |w.slots|) == Some(TimerOf(Advance(w, nowMs), k))
  {
    AdvanceKeepsOk(w, nowMs);
    forall k | k in w.keyIndex
      ensures k in Expired(w, nowMs) <==> Step(TimerOf(w, k), nowMs, |w.slots|).None?
      ensures k in Advance(w, nowMs).keyIndex ==>
                Step(TimerOf(w, k), nowMs, |w.slots|) == Some(TimerOf(Advance(w, nowMs), k))
    {
      AdvanceOne(w, nowMs, k);
    }
  }

  lemma AdvanceOne(w: Wheel, nowMs: int, k: Str)
    requires WheelOk(w) && WheelOk(Advance(w, nowMs)) && k in w.keyIndex
    ensures k in Expired(w, nowMs) <==> Step(TimerOf(w, k), nowMs, |w.slots|).None?
    ensures k in Advance(w, nowMs).keyIndex ==>
              Step(TimerOf(w, k), nowMs, |w.slots|) == Some(TimerOf(Advance(w, nowMs), k))
  {
    ExpiredIff(w, nowMs, k);
    var s, e := w.keyIndex[k], EntryOf(w, k);
    assert 0 <= s < |w.slots| && e.rounds >= 0;
    StepOfEntry(w.pos, s, |w.slots|, e, nowMs);
    if k in Advance(w, nowMs).keyIndex {
      SurvivorEntry(w, nowMs, k);
    }
  }

  /** The timer of an entry steps as the entry is swept, or as the position moves past it. */
  lemma StepOfEntry(pos: nat, s: nat, n: nat, e: WheelEntry, nowMs: int)
    requires pos < n && s < n && e.rounds >= 0
    ensures var t := Timer(Due(pos, s, e.rounds, n), e.expireAt);
            var e' := if s == pos then StepEntry(e, nowMs) else Some(e);
            Step(t, nowMs, n) == match e'
                                 case None => None
                                 case Some(f) => Some(Timer(Due(Next(pos, n), s, f.rounds, n), f.expireAt))
  {
  }

  lemma ExpiredIff(w: Wheel, nowMs: int, k: Str)
    requires WheelOk(w) && k in w.keyIndex
    ensures k in Expired(w, nowMs) <==> w.keyIndex[k] == w.pos && StepEntry(EntryOf(w, k), nowMs).None?
  {
    SweepExact(w.slots[w.pos], nowMs);
    if k in Expired(w, nowMs) {
      var f :| f in w.slots[w.pos] && f.key == k && StepEntry(f, nowMs).None?;
      EntryIs(w, w.pos, f);
    }
  }

  lemma SurvivorEntry(w: Wheel, nowMs: int, k: Str)
    requires WheelOk(w) && WheelOk(Advance(w, nowMs)) && k in Advance(w, nowMs).keyIndex
    ensures var a, e := Advance(w, nowMs), EntryOf(w, k);
            a.keyIndex[k] == w.keyIndex[k] &&
            if w.keyIndex[k] == w.pos then Some(EntryOf(a, k)) == StepEntry(e, nowMs) else EntryOf(a, k) == e
  {
    var a, s, e := Advance(w, nowMs), w.keyIndex[k], EntryOf(w, k);
    ExpiredIff(w, nowMs, k);
    SweepExact(w.slots[w.pos], nowMs);
    if s == w.pos {
      EntryIs(a, s, StepEntry(e, nowMs).value);
    } else {
      EntryIs(a, s, e);
    }
  }

  // ---------- Runs ----------

  datatype Op = AddOp(key: Str, expireAt: int, nowMs: int) | RemoveOp(key: Str) | AdvanceOp(nowMs: int)

  ghost function Apply(w: Wheel, op: Op): (r: Wheel)
    requires Shape(w)
  {
    match op
    case AddOp(k, x, now) => Add(w, k, x, now)
    case RemoveOp(k) => Remove(w, k)
    case AdvanceOp(now) => Advance(w, now)
  }

  lemma ApplyKeepsOk(w: Wheel, op: Op)
    requires WheelOk(w)
    ensures var r := Apply(w, op); WheelOk(r) && |r.slots| == |w.slots| && r.tickMs == w.tickMs
  {
    match op
    case AddOp(k, x, now) => AddKeepsOk(w, k, x, now);
    case RemoveOp(k) => RemoveKeepsOk(w, k);
    case AdvanceOp(now) => AdvanceKeepsOk(w, now);
  }

  /** The same operation on the flat map of timers. */
  ghost function ApplyTimers(m: map<Str, Timer>, op: Op, n: nat, tickMs: nat): map<Str, Timer>
    requires n > 0 && tickMs > 0
  {
    match op
    case AddOp(k, x, now) => m[k := Timer(Ticks(x, now, tickMs), x)]
    case RemoveOp(k) => m - {k}
    case AdvanceOp(now) => map k | k in m && Step(m[k], now, n).Some? :: Step(m[k], now, n).value
  }

  /** The keys an operation hands to the collector. */
  ghost function Fired(m: map<Str, Timer>, op: Op, n: nat): set<Str>
    requires n > 0
  {
    if op.AdvanceOp? then set k | k in m && Step(m[k], op.nowMs, n).None? else {}
  }

  ghost function Returned(w: Wheel, op: Op): seq<Str>
    requires Shape(w)
  {
    if op.AdvanceOp? then Expired(w, op.nowMs) else []
  }

  lemma ApplyRefines(w: Wheel, op: Op)
    requires WheelOk(w)
    ensures WheelOk(Apply(w, op))
    ensures Timers(Apply(w, op)) == ApplyTimers(Timers(w), op, |w.slots|, w.tickMs)
    ensures AsSet(Returned(w, op)) == Fired(Timers(w), op, |w.slots|) && NoDuplicates(Returned(w, op))
  {
    match op {
      case AddOp(k, x, now) => AddRefines(w, k, x, now);
      case RemoveOp(k) => RemoveRefines(w, k);
      case AdvanceOp(now) => AdvanceIsStep(w, now);
    }
  }

  lemma AdvanceIsStep(w: Wheel, nowMs: int)
    requires WheelOk(w)
    ensures WheelOk(Advance(w, nowMs)) && NoDuplicates(Expired(w, nowMs))
    ensures Timers(Advance(w, nowMs)) == ApplyTimers(Timers(w), AdvanceOp(nowMs), |w.slots|, w.tickMs)
    ensures AsSet(Expired(w, nowMs)) == Fired(Timers(w), AdvanceOp(nowMs), |w.slots|)
  {
    AdvanceRefines(w, nowMs);
    StepsOf(Timers(w), Timers(Advance(w, nowMs)), AsSet(Expired(w, nowMs)), nowMs, |w.slots|, w.tickMs);
  }

  lemma StepsOf(m: map<Str, Timer>, a: map<Str, Timer>, out: set<Str>, nowMs: int, n: nat, tickMs: nat)
    requires n > 0 && tickMs > 0
    requires forall k :: k in m ==> (k in out <==> Step(m[k], nowMs, n).None?)
    requires forall k :: k in out ==> k in m
    requires forall k :: k in a <==> k in m && k !in out
    requires forall k :: k in a ==> Step(m[k], nowMs, n) == Some(a[k])
    ensures a == ApplyTimers(m, AdvanceOp(nowMs), n, tickMs) && out == Fired(m, AdvanceOp(nowMs), n)
  {
  }

  /** The wheel and the keys it returned, operation by operation. */
  ghost function Run(w: Wheel, ops: seq<Op>): (r: (Wheel, seq<seq<Str>>))
    requires WheelOk(w)
    ensures WheelOk(r.0) && |r.0.slots| == |w.slots| && r.0.tickMs == w.tickMs && |r.1| == |ops|
    decreases |ops|
  {
    if ops == [] then (w, []) else
      var (v, out) := Run(w, ops[..|ops| - 1]);
      var op := ops[|ops| - 1];
      ApplyKeepsOk(v, op);
      (Apply(v, op), out + [Returned(v, op)])
  }

  ghost function RunTimers(m: map<Str, Timer>, ops: seq<Op>, n: nat, tickMs: nat): (map<Str, Timer>, seq<set<Str>>)
    requires n > 0 && tickMs > 0
    decreases |ops|
  {
    if ops == [] then (m, []) else
      var (v, out) := RunTimers(m, ops[..|ops| - 1], n, tickMs);
      var op := ops[|ops| - 1];
      (ApplyTimers(v, op, n, tickMs), out + [Fired(v, op, n)])
  }

  /** Over every run the wheel is the map of timers, and returns exactly the timers that fire. */
  lemma {:induction false} WheelRefinesTimers(w: Wheel, ops: seq<Op>)
    requires WheelOk(w)
    ensures var (v, out) := Run(w, ops);
            var (m, fired) := RunTimers(Timers(w), ops, |w.slots|, w.tickMs);
            Timers(v) == m && |out| == |fired| == |ops| &&
            forall i :: 0 <= i < |ops| ==> AsSet(out[i]) == fired[i] && NoDuplicates(out[i])
    decreases |ops|
  {
    if ops != [] {
      var before := ops[..|ops| - 1];
      WheelRefinesTimers(w, before);
      ApplyRefines(Run(w, before).0, ops[|ops| - 1]);
    }
  }

  // ---------- Timing ----------

  function AdvanceTimes(ops: seq<Op>): seq<int> {
    if ops == [] then [] else
      AdvanceTimes(ops[..|ops| - 1]) + if ops[|ops| - 1].AdvanceOp? then [ops[|ops| - 1].nowMs] else []
  }

  /** The j-th Advance (counted from 0) looks at the deadline of a timer set to due. */
  predicate Tested(due: nat, j: nat, n: nat)
    requires n > 0
  {
    j >= due && (j - due) % n == 0
  }

  /** One timer through a list of Advances; None once it has fired. */
  function RunTimer(t: Timer, times: seq<int>, n: nat): Option<Timer>
    requires n > 0
  {
    if times == [] then Some(t) else
      match RunTimer(t, times[..|times| - 1], n)
      case None => None
      case Some(u) => Step(u, times[|times| - 1], n)
  }

  lemma TestedEvery(due: nat, j: nat, n: nat)
    requires n > 0 && Tested(due, j, n)
    ensures Tested(due, j + n, n)
    ensures forall x :: j < x < j + n ==> !Tested(due, x, n)
  {
    var q := (j - due) / n;
    assert j - due == n * q;
    assert n * (q + 1) == n * q + n;
    ModUnique(j + n - due, n, q + 1, 0);
    forall x | j < x < j + n
      ensures !Tested(due, x, n)
    {
      ModUnique(x - due, n, q, x - j);
    }
  }

  lemma TestedFirst(due: nat, n: nat)
    requires n > 0
    ensures Tested(due, due, n) && forall x :: 0 <= x < due ==> !Tested(due, x, n)
  {
  }

  /** A timer is still running exactly when no Advance that looked at its deadline was late
      enough; and it stands at the distance to the next Advance that will look. */
  lemma {:induction false} RunTimerExact(t: Timer, times: seq<int>, n: nat)
    requires n > 0
    ensures RunTimer(t, times, n).Some? <==>
            forall j :: 0 <= j < |times| && Tested(t.due, j, n) ==> times[j] < DeadlineMs(t.expireAt)
    ensures RunTimer(t, times, n).Some? ==>
              var u := RunTimer(t, times, n).value;
              u.expireAt == t.expireAt && Tested(t.due, |times| + u.due, n) &&
              forall j :: |times| <= j < |times| + u.due ==> !Tested(t.due, j, n)
  {
    if times == [] {
      TestedFirst(t.due, n);
    } else {
      var m := |times| - 1;
      RunTimerExact(t, times[..m], n);
      assert forall j :: 0 <= j < m ==> times[..m][j] == times[j];
      match RunTimer(t, times[..m], n)
      case None =>
      case Some(u) =>
        if u.due == 0 {
          TestedEvery(t.due, m, n);
        } else {
          assert !Tested(t.due, m, n);
        }
    }
  }

  ghost predicate Spares(op: Op, key: Str) {
    op.AdvanceOp? || op.key != key
  }

  /** While no operation names it, a key's fate is its own timer's. */
  lemma {:induction false} KeyFollowsTimer(m: map<Str, Timer>, ops: seq<Op>, n: nat, tickMs: nat, key: Str)
    requires n > 0 && tickMs > 0 && key in m
    requires forall i :: 0 <= i < |ops| ==> Spares(ops[i], key)
    ensures var r := RunTimers(m, ops, n, tickMs).0;
            RunTimer(m[key], AdvanceTimes(ops), n) == if key in r then Some(r[key]) else None
    decreases |ops|
  {
    if ops != [] {
      var before, op := ops[..|ops| - 1], ops[|ops| - 1];
      KeyFollowsTimer(m, before, n, tickMs, key);
      assert Spares(op, key);
      if op.AdvanceOp? {
        var times := AdvanceTimes(ops);
        assert times[..|times| - 1] == AdvanceTimes(before);
      } else {
        assert AdvanceTimes(ops) == AdvanceTimes(before);
      }
    }
  }

  ghost predicate LateEnough(expireAt: int, times: seq<int>, due: nat, j: nat, n: nat)
    requires n > 0 && j < |times|
  {
    && Tested(due, j, n) && DeadlineMs(expireAt) <= times[j]
    && forall x :: 0 <= x < j && Tested(due, x, n) ==> times[x] < DeadlineMs(expireAt)
  }

  lemma {:induction false} AdvanceNumber(ops: seq<Op>, i: nat)
    requires i < |ops| && ops[i].AdvanceOp?
    ensures AdvanceTimes(ops[..i + 1]) == AdvanceTimes(ops[..i]) + [ops[i].nowMs]
    ensures AdvanceTimes(ops[..i + 1]) <= AdvanceTimes(ops)
  {
    assert ops[..i + 1][..i] == ops[..i];
    if i + 1 < |ops| {
      AdvanceNumber(ops[..|ops| - 1], i);
      assert ops[..|ops| - 1][..i + 1] == ops[..i + 1] && ops[..|ops| - 1][..i] == ops[..i];
    } else {
      assert ops[..i + 1] == ops;
    }
  }

  lemma {:induction false} RunTimersPrefix(m: map<Str, Timer>, ops: seq<Op>, n: nat, tickMs: nat, i: nat)
    requires n > 0 && tickMs > 0 && i < |ops|
    ensures |RunTimers(m, ops, n, tickMs).1| == |ops|
    ensures RunTimers(m, ops, n, tickMs).1[i] == Fired(RunTimers(m, ops[..i], n, tickMs).0, ops[i], n)
    decreases |ops|
  {
    var k := |ops| - 1;
    if i < k {
      RunTimersPrefix(m, ops[..k], n, tickMs, i);
      assert ops[..k][..i] == ops[..i];
    } else if k > 0 {
      RunTimersPrefix(m, ops[..k], n, tickMs, 0);
    }
  }

  /** Wheel timing, exactly: after an Add, and while no operation names the key, the Advance with
      number j returns the key iff it is number ticks, ticks + n, ticks + 2n, ... and the first of
      these to run at or after the deadline. The run may add and remove other keys anywhere. */
  lemma ReturnedExactly(w: Wheel, key: Str, expireAt: int, nowMs: int, ops: seq<Op>, i: nat)
    requires WheelOk(w)
    requires forall x :: 0 <= x < |ops| ==> Spares(ops[x], key)
    requires i < |ops| && ops[i].AdvanceOp?
    ensures WheelOk(Add(w, key, expireAt, nowMs)) && |AdvanceTimes(ops[..i])| < |AdvanceTimes(ops)|
    ensures key in Run(Add(w, key, expireAt, nowMs), ops).1[i] <==>
            LateEnough(expireAt, AdvanceTimes(ops), Ticks(expireAt, nowMs, w.tickMs), |AdvanceTimes(ops[..i])|,
              |w.slots|)
  {
    var a := Add(w, key, expireAt, nowMs);
    AddRefines(w, key, expireAt, nowMs);
    WheelRefinesTimers(a, ops);
    var m := Timers(a);
    FiredExactly(m, ops, |w.slots|, w.tickMs, key, i);
    assert m[key] == Timer(Ticks(expireAt, nowMs, w.tickMs), expireAt);
    var out := Run(a, ops).1;
    assert key in out[i] <==> key in AsSet(out[i]);
  }

  lemma FiredExactly(m: map<Str, Timer>, ops: seq<Op>, n: nat, tickMs: nat, key: Str, i: nat)
    requires n > 0 && tickMs > 0 && key in m
    requires forall x :: 0 <= x < |ops| ==> Spares(ops[x], key)
    requires i < |ops| && ops[i].AdvanceOp?
    ensures |AdvanceTimes(ops[..i])| < |AdvanceTimes(ops)|
    ensures |RunTimers(m, ops, n, tickMs).1| == |ops|
    ensures key in RunTimers(m, ops, n, tickMs).1[i] <==>
            LateEnough(m[key].expireAt, AdvanceTimes(ops), m[key].due, |AdvanceTimes(ops[..i])|, n)
  {
    RunTimersPrefix(m, ops, n, tickMs, i);
    AdvanceNumber(ops, i);
    KeyFollowsTimer(m, ops[..i], n, tickMs, key);
    var before, times, j := AdvanceTimes(ops[..i]), AdvanceTimes(ops), |AdvanceTimes(ops[..i])|;
    assert times[..j] == before && times[j] == ops[i].nowMs by {
      var upTo := AdvanceTimes(ops[..i + 1]);
      assert upTo[..j] == before && upTo[j] == ops[i].nowMs && times[..|upTo|] == upTo;
    }
    RunTimerExact(m[key], before, n);
    assert forall x :: 0 <= x < j ==> before[x] == times[x];
    if RunTimer(m[key], before, n).Some? {
      var u := RunTimer(m[key], before, n).value;
      assert Tested(m[key].due, j, n) ==> u.due == 0;
    }
  }

  /** Advances at least a tick apart, the first not before `start`. */
  ghost predicate Spaced(times: seq<int>, start: int, tickMs: nat) {
    && (|times| > 0 ==> times[0] >= start)
    && forall j :: 0 < j < |times| ==> times[j] >= times[j - 1] + tickMs
  }

  lemma {:induction false} SpacedBound(times: seq<int>, start: int, tickMs: nat, j: nat)
    requires Spaced(times, start, tickMs) && j < |times|
    ensures times[j] >= start + Times(j, tickMs)
  {
    if j > 0 {
      SpacedBound(times, start, tickMs, j - 1);
    }
  }

  lemma {:induction false} TimesMonotone(a: nat, b: nat, tickMs: nat)
    requires a <= b
    ensures Times(a, tickMs) <= Times(b, tickMs)
  {
    if a < b {
      TimesMonotone(a, b - 1, tickMs);
    }
  }

  lemma DueOnTime(expireAt: int, nowMs: int, tickMs: nat, n: nat, times: seq<int>, j: nat)
    requires tickMs > 0 && n > 0 && j < |times|
    requires Spaced(times, nowMs + tickMs, tickMs)
    ensures var t := Ticks(expireAt, nowMs, tickMs);
            LateEnough(expireAt, times, t, j, n) <==> j == t
  {
    var t := Ticks(expireAt, nowMs, tickMs);
    TestedFirst(t, n);
    if t < |times| {
      SpacedBound(times, nowMs + tickMs, tickMs, t);
      TicksExact(expireAt, nowMs, tickMs);
    }
  }

  lemma DueWithinOneLap(expireAt: int, nowMs: int, tickMs: nat, n: nat, times: seq<int>, j: nat)
    requires tickMs > 0 && n > 0 && j < |times|
    requires Spaced(times, nowMs, tickMs)
    ensures var t := Ticks(expireAt, nowMs, tickMs);
            LateEnough(expireAt, times, t, j, n) <==>
            t < |times| && j == if DeadlineMs(expireAt) <= times[t] then t else t + n
  {
    var t := Ticks(expireAt, nowMs, tickMs);
    TestedFirst(t, n);
    TestedEvery(t, t, n);
    if t + n < |times| {
      SpacedBound(times, nowMs, tickMs, t + n);
      TicksExact(expireAt, nowMs, tickMs);
      TimesMonotone(t + 1, t + n, tickMs);
    }
  }

  /** On time: when the first Advance comes a full tick after the Add or later and Advances are at
      least a tick apart, the key is returned by Advance number ticks and by no other. */
  lemma ReturnedOnTime(w: Wheel, key: Str, expireAt: int, nowMs: int, ops: seq<Op>, i: nat)
    requires WheelOk(w)
    requires forall x :: 0 <= x < |ops| ==> Spares(ops[x], key)
    requires i < |ops| && ops[i].AdvanceOp?
    requires Spaced(AdvanceTimes(ops), nowMs + w.tickMs, w.tickMs)
    ensures WheelOk(Add(w, key, expireAt, nowMs))
    ensures key in Run(Add(w, key, expireAt, nowMs), ops).1[i] <==>
            |AdvanceTimes(ops[..i])| == Ticks(expireAt, nowMs, w.tickMs)
  {
    ReturnedExactly(w, key, expireAt, nowMs, ops, i);
    DueOnTime(expireAt, nowMs, w.tickMs, |w.slots|, AdvanceTimes(ops), |AdvanceTimes(ops[..i])|);
  }

  /** With no such head start the deadline can be missed once: the key is returned by Advance
      number ticks if that one runs at or after the deadline, and else by number ticks + n. */
  lemma ReturnedWithinOneLap(w: Wheel, key: Str, expireAt: int, nowMs: int, ops: seq<Op>, i: nat)
    requires WheelOk(w)
    requires forall x :: 0 <= x < |ops| ==> Spares(ops[x], key)
    requires i < |ops| && ops[i].AdvanceOp?
    requires Spaced(AdvanceTimes(ops), nowMs, w.tickMs)
    ensures WheelOk(Add(w, key, expireAt, nowMs))
    ensures var times, t := AdvanceTimes(ops), Ticks(expireAt, nowMs, w.tickMs);
            key in Run(Add(w, key, expireAt, nowMs), ops).1[i] <==>
            t < |times| && |AdvanceTimes(ops[..i])| == if DeadlineMs(expireAt) <= times[t] then t else t + |w.slots|
  {
    ReturnedExactly(w, key, expireAt, nowMs, ops, i);
    DueWithinOneLap(expireAt, nowMs, w.tickMs, |w.slots|, AdvanceTimes(ops), |AdvanceTimes(ops[..i])|);
  }

  /** Advances exactly a tick apart, the first a tick after the start. */
  ghost predicate Regular(times: seq<int>, start: int, tickMs: nat) {
    && (|times| > 0 ==> times[0] == start + tickMs)
    && forall j :: 0 < j < |times| ==> times[j] == times[j - 1] + tickMs
  }

  lemma {:induction false} RegularTime(times: seq<int>, start: int, tickMs: nat, j: nat)
    requires Regular(times, start, tickMs) && j < |times|
    ensures times[j] == start + Times(j + 1, tickMs)
  {
    if j > 0 {
      RegularTime(times, start, tickMs, j - 1);
    }
  }

  /** The Advance number t is the one in the tick after the later of deadline and Add. */
  lemma InNextTick(t: nat, delay: int, tickMs: nat, j: nat)
    requires tickMs > 0 && FullTicks(t, delay, tickMs)
    ensures var late := if delay < 0 then 0 else delay;
            j == t <==> late < Times(j + 1, tickMs) <= late + tickMs
  {
    if j < t {
      TimesMonotone(j + 1, t, tickMs);
    } else if j > t {
      TimesMonotone(t + 1, j, tickMs);
    }
  }

  /** In step with its ticks, the wheel returns a key by the first Advance that comes after both the
      deadline and the Add, so never before the deadline and at most one tick after the later of the
      two; a key whose deadline has passed by the next Advance. */
  lemma ReturnedWithinOneTick(w: Wheel, key: Str, expireAt: int, nowMs: int, ops: seq<Op>, i: nat)
    requires WheelOk(w)
    requires forall x :: 0 <= x < |ops| ==> Spares(ops[x], key)
    requires i < |ops| && ops[i].AdvanceOp? && Regular(AdvanceTimes(ops), nowMs, w.tickMs)
    ensures WheelOk(Add(w, key, expireAt, nowMs))
    ensures var late := if DeadlineMs(expireAt) < nowMs then nowMs else DeadlineMs(expireAt);
            key in Run(Add(w, key, expireAt, nowMs), ops).1[i] <==> late < ops[i].nowMs <= late + w.tickMs
    ensures DeadlineMs(expireAt) <= nowMs ==>
              (key in Run(Add(w, key, expireAt, nowMs), ops).1[i] <==> |AdvanceTimes(ops[..i])| == 0)
  {
    assert w.tickMs > 0 && |w.slots| > 0;
    hide WheelOk, Add, Run, Ticks, FullTicks;
    var j := |AdvanceTimes(ops[..i])|;
    SpacedIfRegular(AdvanceTimes(ops), nowMs, w.tickMs);
    ReturnedOnTime(w, key, expireAt, nowMs, ops, i);
    AdvanceNumber(ops, i);
    RegularTime(AdvanceTimes(ops), nowMs, w.tickMs, j);
    TicksExact(expireAt, nowMs, w.tickMs);
    InNextTick(Ticks(expireAt, nowMs, w.tickMs), DeadlineMs(expireAt) - nowMs, w.tickMs, j);
    InNextTick(Ticks(expireAt, nowMs, w.tickMs), DeadlineMs(expireAt) - nowMs, w.tickMs, 0);
  }

  lemma SpacedIfRegular(times: seq<int>, start: int, tickMs: nat)
    requires Regular(times, start, tickMs)
    ensures Spaced(times, start + tickMs, tickMs)
  {
  }

  /** Whatever the Advances' distances, a key added past its deadline is returned by the next one. */
  lemma PastDeadline(w: Wheel, key: Str, expireAt: int, nowMs: int, ops: seq<Op>, i: nat)
    requires WheelOk(w)
    requires forall x :: 0 <= x < |ops| ==> Spares(ops[x], key)
    requires i < |ops| && ops[i].AdvanceOp?
    requires DeadlineMs(expireAt) <= nowMs && forall x :: 0 <= x < |AdvanceTimes(ops)| ==> AdvanceTimes(ops)[x] >= nowMs
    ensures WheelOk(Add(w, key, expireAt, nowMs))
    ensures key in Run(Add(w, key, expireAt, nowMs), ops).1[i] <==> |AdvanceTimes(ops[..i])| == 0
  {
    assert w.tickMs > 0 && |w.slots| > 0;
    hide WheelOk, Add, Run, Ticks, FullTicks;
    ReturnedExactly(w, key, expireAt, nowMs, ops, i);
    TicksExact(expireAt, nowMs, w.tickMs);
    InNextTick(Ticks(expireAt, nowMs, w.tickMs), DeadlineMs(expireAt) - nowMs, w.tickMs, 0);
    TestedFirst(0, |w.slots|);
  }
}
