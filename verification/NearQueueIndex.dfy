/** The position map of the near queue. The code's Swap does not update it, so it is right
    exactly as long as no operation moves an entry; the conditions are given operation by
    operation, and two runs on which it goes wrong. CodeSwap in a name is that Swap. */
module NearQueueIndex {
  import opened GoTypes
  import opened NearModel
  import opened NearQueueProofs

  // ---------- The code as it stands ----------

  /** No sift of the code touches the map. */
  lemma {:induction false} CodeSwapUpIndex(q: Near, j: int)
    requires 0 <= j < |q.heap|
    ensures Up(q, j, false).0.index == q.index
    decreases j
  {
    var i := Parent(j);
    if i != j && Less(q, j, i) {
      CodeSwapUpIndex(Swap(q, i, j, false), i);
    }
  }

  lemma {:induction false} CodeSwapDownIndex(q: Near, i: int, n: int)
    requires 0 <= i < n <= |q.heap|
    ensures Down(q, i, n, false).0.index == q.index
    decreases n - i
  {
    if 2 * i + 1 < n {
      var j := SmallerChild(q, i, n);
      if Less(q, j, i) {
        CodeSwapDownIndex(Swap(q, i, j, false), j, n);
      }
    }
  }

  /** Add of a new key keeps the map right iff the entry need not rise above its parent. */
  lemma CodeSwapAddNewIff(q: Near, key: Str, expireAt: int, nowMs: int, windowMs: int)
    requires Agreement(q) && key !in q.index && DeadlineMs(expireAt) - nowMs <= windowMs
    ensures var a := Add(q, key, expireAt, nowMs, windowMs, false);
            var n := |q.heap|;
            a.Done? && (Agreement(a.q) <==> n == 0 || q.heap[Parent(n)].expireAt <= expireAt)
  {
    var n := |q.heap|;
    var p := q.(heap := q.heap + [NearEntry(key, expireAt, n)]);
    var (r, at) := Up(p, n, false);
    var i := Parent(n);
    CodeSwapUpIndex(p, n);
    if i != n && Less(p, n, i) {
      var s := Swap(p, i, n, false);
      UpKeeps(s, i, false);
      assert r.heap[n].key == q.heap[i].key;
    }
  }

  /** The entry at position i may keep its place with a new deadline. */
  ghost predicate Stays(q: Near, i: int, expireAt: int)
    requires 0 <= i < |q.heap|
  {
    && (i > 0 ==> q.heap[Parent(i)].expireAt <= expireAt)
    && forall c :: i < c < |q.heap| && Parent(c) == i ==> expireAt <= q.heap[c].expireAt
  }

  lemma StaysIff(q: Near, i: int)
    requires 0 <= i < |q.heap|
    ensures Stays(q, i, q.heap[i].expireAt) <==>
            (2 * i + 1 >= |q.heap| || !Less(q, SmallerChild(q, i, |q.heap|), i)) && (i == 0 || !Less(q, i, Parent(i)))
  {
    if Stays(q, i, q.heap[i].expireAt) && 2 * i + 1 < |q.heap| {
      assert Parent(SmallerChild(q, i, |q.heap|)) == i;
    }
  }

  /** A sift that moves its entry leaves another entry in its place. */
  lemma MovedAway(q: Near, i: int)
    requires 0 <= i < |q.heap| && !Stays(q, i, q.heap[i].expireAt)
    ensures var r := DownElseUp(q, i, |q.heap|, false);
            exists j :: 0 <= j < |q.heap| && j != i && r.heap[i].key == q.heap[j].key
  {
    var n := |q.heap|;
    StaysIff(q, i);
    if 2 * i + 1 < n && Less(q, SmallerChild(q, i, n), i) {
      var j := SmallerChild(q, i, n);
      DownKeeps(Swap(q, i, j, false), j, n, false);
    } else {
      UpKeeps(Swap(q, Parent(i), i, false), Parent(i), false);
    }
  }

  /** Rescheduling keeps the map right iff the entry can keep its place. */
  lemma CodeSwapRescheduleIff(q: Near, key: Str, expireAt: int, nowMs: int, windowMs: int)
    requires Agreement(q) && key in q.index && DeadlineMs(expireAt) - nowMs <= windowMs
    ensures var a := Add(q, key, expireAt, nowMs, windowMs, false);
            a.Done? && (Agreement(a.q) <==> Stays(q, q.index[key], expireAt))
  {
    var at, n := q.index[key], |q.heap|;
    var q' := q.(heap := q.heap[at := q.heap[at].(expireAt := expireAt)]);
    assert Stays(q', at, expireAt) <==> Stays(q, at, expireAt) by {
      assert forall c :: at < c < n && Parent(c) == at ==> q'.heap[c] == q.heap[c];
      assert at > 0 ==> q'.heap[Parent(at)] == q.heap[Parent(at)];
    }
    CodeSwapDownIndex(q', at, n);
    CodeSwapUpIndex(Down(q', at, n, false).0, at);
    StaysIff(q', at);
    if !Stays(q', at, expireAt) {
      MovedAway(q', at);
    }
  }

  /** Remove keeps the map right iff the key's entry is the last one. */
  lemma CodeSwapRemoveIff(q: Near, key: Str)
    requires Agreement(q) && key in q.index
    ensures var r := Remove(q, key, false);
            r.Done? && (Agreement(r.q) <==> q.index[key] == |q.heap| - 1)
  {
    var i, n := q.index[key], |q.heap| - 1;
    var r := Remove(q, key, false).q;
    if i < n {
      CodeSwapDownIndex(Swap(q, i, n, false), i, n);
      CodeSwapUpIndex(Down(Swap(q, i, n, false), i, n, false).0, i);
      var last := q.heap[n].key;
      assert last != key && last in r.index && r.index[last] == n;
    }
  }

  /** Whatever the map says, Remove panics exactly when the recorded position is past the end, and
      otherwise takes out the entry standing there: the key's own entry iff the position is its. */
  lemma CodeSwapRemoveTakes(q: Near, key: Str)
    requires key in q.index && q.index[key] >= 0
    ensures var r := Remove(q, key, false);
            (r.Panicked? <==> q.index[key] >= |q.heap|) &&
            (!r.Panicked? ==> r.Done? && Bag(r.q.heap) == Bag(q.heap) - multiset{Item(q.heap[q.index[key]])})
  {
    if q.index[key] < |q.heap| {
      RemoveAtExact(q, q.index[key], false);
    }
  }

  lemma CodeSwapPopIndex(q: Near)
    requires q.heap != []
    ensures Pop(q, false).0.index == q.index
  {
    var n := |q.heap| - 1;
    if n > 0 {
      CodeSwapDownIndex(Swap(q, 0, n, false), 0, n);
    }
  }

  /** No entry of the list is the key's. */
  ghost predicate Without(list: seq<NearEntry>, k: Str) {
    forall i :: 0 <= i < |list| ==> list[i].key != k
  }

  lemma NoneWithout()
    ensures forall k :: Without([], k)
  {
  }

  lemma WithoutMore(e: NearEntry, rest: seq<NearEntry>, k: Str)
    ensures Without([e] + rest, k) <==> e.key != k && Without(rest, k)
  {
    assert ([e] + rest)[0] == e;
    assert forall i :: 0 <= i < |rest| ==> ([e] + rest)[i + 1] == rest[i];
  }

  lemma {:induction false} CodeSwapDrainIndex(q: Near, nowMs: int)
    ensures var (r, popped) := Drain(q, nowMs, false);
            forall k :: k in r.index <==> k in q.index && Without(popped, k)
    ensures var r := Drain(q, nowMs, false).0;
            forall k :: k in r.index ==> k in q.index && r.index[k] == q.index[k]
    decreases |q.heap|
  {
    hide Pop, Without;
    if q.heap != [] && DeadlineMs(q.heap[0].expireAt) <= nowMs {
      CodeSwapPopIndex(q);
      var (p, e) := Pop(q, false);
      var d := p.(index := p.index - {e.key});
      CodeSwapDrainIndex(d, nowMs);
      var rest := Drain(d, nowMs, false).1;
      forall k
        ensures Without([e] + rest, k) <==> e.key != k && Without(rest, k)
      {
        WithoutMore(e, rest, k);
      }
    } else {
      NoneWithout();
    }
  }

  lemma PartialDrain(q: Near, nowMs: int)
    requires Agreement(q) && NearOk(q.heap)
    requires Drain(q, nowMs, false).0.heap != [] && Drain(q, nowMs, false).1 != []
    ensures !Agreement(Drain(q, nowMs, false).0)
  {
    var (r, popped) := Drain(q, nowMs, false);
    CodeSwapDrainIndex(q, nowMs);
    PopExact(q, false);
    assert popped[0].key == q.heap[0].key;
    var k := r.heap[0].key;
    assert k in r.index ==> k != popped[0].key && r.index[k] == q.index[k];
  }

  lemma FullDrain(q: Near, nowMs: int)
    requires Agreement(q) && NearOk(q.heap) && Drain(q, nowMs, false).0.heap == []
    ensures Drain(q, nowMs, false).0.index == map[] && Agreement(Drain(q, nowMs, false).0)
  {
    var (r, popped) := Drain(q, nowMs, false);
    CodeSwapDrainIndex(q, nowMs);
    DrainExact(q, nowMs, false);
    forall k | k in q.index
      ensures k !in r.index
    {
      AllPopped(q, popped, k);
    }
  }

  /** Draining keeps the map right iff no entry is due yet or all of them are. */
  lemma CodeSwapDrainIff(q: Near, nowMs: int)
    requires Agreement(q) && NearOk(q.heap)
    ensures Agreement(Drain(q, nowMs, false).0) <==> AllLater(q.heap, nowMs) || AllDue(q.heap, nowMs)
  {
    hide Drain, Agreement;
    var (r, popped) := Drain(q, nowMs, false);
    DrainNothingOrAll(q, nowMs);
    if r.heap == [] {
      FullDrain(q, nowMs);
    } else if popped != [] {
      PartialDrain(q, nowMs);
    } else {
      NoDrain(q, nowMs);
    }
  }

  lemma NoDrain(q: Near, nowMs: int)
    requires Agreement(q) && Drain(q, nowMs, false).1 == []
    ensures Agreement(Drain(q, nowMs, false).0)
  {
  }

  /** Draining takes nothing iff all entries are later, and leaves nothing iff all are due. */
  lemma DrainNothingOrAll(q: Near, nowMs: int)
    requires NearOk(q.heap)
    ensures Drain(q, nowMs, false).1 == [] <==> AllLater(q.heap, nowMs)
    ensures Drain(q, nowMs, false).0.heap == [] <==> AllDue(q.heap, nowMs)
  {
    hide Drain, NearOk, Bag, AllDue, AllLater;
    var (r, popped) := Drain(q, nowMs, false);
    DrainExact(q, nowMs, false);
    forall h: seq<NearEntry>
      ensures AllDue(h, nowMs) <==> forall it :: it in Bag(h) ==> DeadlineMs(it.1) <= nowMs
      ensures AllLater(h, nowMs) <==> forall it :: it in Bag(h) ==> DeadlineMs(it.1) > nowMs
      ensures h == [] <==> Bag(h) == multiset{}
    {
      InBag(h, nowMs);
    }
    PartsOfWhole(Bag(popped), Bag(r.heap), Bag(q.heap), nowMs);
  }

  lemma BagSize(h: seq<NearEntry>)
    ensures |Bag(h)| == |h|
  {
  }

  lemma InBag(h: seq<NearEntry>, nowMs: int)
    ensures AllDue(h, nowMs) <==> forall it :: it in Bag(h) ==> DeadlineMs(it.1) <= nowMs
    ensures AllLater(h, nowMs) <==> forall it :: it in Bag(h) ==> DeadlineMs(it.1) > nowMs
    ensures h == [] <==> Bag(h) == multiset{}
  {
    hide Bag, DeadlineMs;
    BagSize(h);
    forall i | 0 <= i < |h|
      ensures Item(h[i]) in Bag(h) && Item(h[i]).1 == h[i].expireAt
    {
      BagMember(h, Item(h[i]));
    }
    forall it | it in Bag(h)
      ensures exists i :: 0 <= i < |h| && h[i].expireAt == it.1
    {
      BagMember(h, it);
    }
  }

  lemma PartsOfWhole(due: multiset<(Str, int)>, later: multiset<(Str, int)>, whole: multiset<(Str, int)>, nowMs: int)
    requires due + later == whole
    requires forall it :: it in due ==> DeadlineMs(it.1) <= nowMs
    requires forall it :: it in later ==> DeadlineMs(it.1) > nowMs
    ensures due == multiset{} <==> forall it :: it in whole ==> DeadlineMs(it.1) > nowMs
    ensures later == multiset{} <==> forall it :: it in whole ==> DeadlineMs(it.1) <= nowMs
  {
    assert forall it :: it in whole <==> it in due || it in later;
    if due != multiset{} {
      var it :| it in due;
      assert it in whole;
    }
    if later != multiset{} {
      var it :| it in later;
      assert it in whole;
    }
  }

  lemma AllPopped(q: Near, popped: seq<NearEntry>, k: Str)
    requires Agreement(q) && Bag(popped) == Bag(q.heap) && k in q.index
    ensures exists i :: 0 <= i < |popped| && popped[i].key == k
  {
    var it := Item(q.heap[q.index[k]]);
    BagMember(q.heap, it);
    BagMember(popped, it);
  }

  const A: Str := [97]
  const B: Str := [98]
  const EMPTY := Near([], map[])

  /** Add a at 10, Add b at 5, Remove a: the entry that goes is b's. */
  lemma RemoveTakesTheWrongKey()
    ensures var q1 := Add(EMPTY, A, 10, 0, 2000, false).q;
            var q2 := Add(q1, B, 5, 0, 2000, false).q;
            var r := Remove(q2, A, false);
            r.Done? && |r.q.heap| == 1 && Item(r.q.heap[0]) == (A, 10) && r.q.index.Keys == {B}
  {
    var q1 := Add(EMPTY, A, 10, 0, 2000, false).q;
    assert q1 == Near([NearEntry(A, 10, 0)], map[A := 0]);
    var q2 := Add(q1, B, 5, 0, 2000, false).q;
    var p := q1.(heap := q1.heap + [NearEntry(B, 5, 1)]);
    assert Up(p, 1, false) == (Swap(p, 0, 1, false), 0);
    assert q2 == Near([NearEntry(B, 5, 0), NearEntry(A, 10, 1)], map[A := 0, B := 0]);
    var s := Swap(q2, 0, 1, false);
    assert Down(s, 0, 1, false) == (s, 0) && Up(s, 0, false) == (s, 0);
  }

  /** Add a due now, Add b due later, drain a, Remove b: the recorded position is past the end. */
  lemma RemovePanics()
    ensures var q1 := Add(EMPTY, A, 0, 0, 2000, false).q;
            var q2 := Add(q1, B, 1000 * NANOS_PER_MILLI, 0, 2000, false).q;
            var q3 := Drain(q2, 0, false).0;
            |q3.heap| == 1 && q3.heap[0].key == B && Remove(q3, B, false).Panicked?
  {
    var late := 1000 * NANOS_PER_MILLI;
    var q1 := Add(EMPTY, A, 0, 0, 2000, false).q;
    assert q1 == Near([NearEntry(A, 0, 0)], map[A := 0]);
    var p := q1.(heap := q1.heap + [NearEntry(B, late, 1)]);
    assert Up(p, 1, false) == (p, 1);
    var q2 := Add(q1, B, late, 0, 2000, false).q;
    assert q2 == Near([NearEntry(A, 0, 0), NearEntry(B, late, 1)], map[A := 0, B := 1]);
    var s := Swap(q2, 0, 1, false);
    assert Down(s, 0, 1, false) == (s, 0);
    var q2' := Near([NearEntry(B, late, 0)], map[B := 1]);
    assert s.heap[..1] == [NearEntry(B, late, 0)];
    assert Pop(q2, false) == (q2'.(index := map[A := 0, B := 1]), NearEntry(A, 0, 1));
    assert map[A := 0, B := 1] - {A} == map[B := 1];
    assert Drain(q2', 0, false) == (q2', []);
    var (p2, e) := Pop(q2, false);
    assert p2.(index := p2.index - {e.key}) == q2';
    assert DeadlineMs(q2.heap[0].expireAt) <= 0;
    assert Drain(q2, 0, false) == (q2', [e] + []);
  }
}
