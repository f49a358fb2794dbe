/** The near queue with the repaired Swap: the map names every entry's position through every
    sift, and the queue behaves as a map from keys to deadlines. */
module NearQueueRepaired {
  import opened GoTypes
  import opened NearModel
  import opened NearQueueProofs

  /** Abstract value of an agreeing queue. */
  ghost function Deadlines(q: Near): map<Str, int>
    requires Agreement(q)
  {
    map k | k in q.index :: q.heap[q.index[k]].expireAt
  }

  lemma BagIsMap(q: Near, k: Str, x: int)
    requires Agreement(q)
    ensures (k, x) in Bag(q.heap) <==> k in Deadlines(q) && Deadlines(q)[k] == x
  {
    BagMember(q.heap, (k, x));
    if k in q.index {
      assert Item(q.heap[q.index[k]]) == (k, Deadlines(q)[k]);
    }
  }

  // ---------- Sifts ----------

  lemma SwapAgrees(q: Near, i: int, j: int)
    requires 0 <= i < |q.heap| && 0 <= j < |q.heap| && Agreement(q)
    ensures Agreement(Swap(q, i, j, true)) && Swap(q, i, j, true).index.Keys == q.index.Keys
  {
  }

  lemma {:induction false} DownAgrees(q: Near, i: int, n: int)
    requires 0 <= i < n <= |q.heap| && Agreement(q)
    ensures Agreement(Down(q, i, n, true).0) && Down(q, i, n, true).0.index.Keys == q.index.Keys
    decreases n - i
  {
    if 2 * i + 1 < n {
      var j := SmallerChild(q, i, n);
      if Less(q, j, i) {
        SwapAgrees(q, i, j);
        DownAgrees(Swap(q, i, j, true), j, n);
      }
    }
  }

  /** Also while the entry that rises is not in the map yet. */
  lemma {:induction false} UpAgrees(q: Near, j: int)
    requires 0 <= j < |q.heap|
    requires Agreement(q.(index := q.index[q.heap[j].key := j]))
    ensures var (r, at) := Up(q, j, true);
            Agreement(r.(index := r.index[q.heap[j].key := at])) &&
            r.index.Keys + {q.heap[j].key} == q.index.Keys + {q.heap[j].key}
    decreases j
  {
    var i := Parent(j);
    if i != j && Less(q, j, i) {
      var k := q.heap[j].key;
      var named := q.(index := q.index[k := j]);
      var s := Swap(q, i, j, true);
      SwapAgrees(named, i, j);
      assert q.heap[i].key in named.index && named.index[q.heap[i].key] == i;
      assert s.(index := s.index[k := i]) == Swap(named, i, j, true);
      UpAgrees(s, i);
    }
  }

  lemma DownElseUpAgrees(q: Near, i: int, n: int)
    requires 0 <= i < n <= |q.heap| && Agreement(q)
    ensures Agreement(DownElseUp(q, i, n, true)) && DownElseUp(q, i, n, true).index.Keys == q.index.Keys
  {
    DownAgrees(q, i, n);
    var (d, at) := Down(q, i, n, true);
    if at <= i {
      assert d.index[d.heap[i].key := i] == d.index;
      UpAgrees(d, i);
      var (u, rest) := Up(d, i, true);
      UpNamesItself(d, i);
      assert u.index[d.heap[i].key := rest] == u.index;
    }
  }

  lemma {:induction false} UpNamesItself(q: Near, j: int)
    requires 0 <= j < |q.heap| && Agreement(q)
    ensures var (r, at) := Up(q, j, true); q.heap[j].key in r.index && r.index[q.heap[j].key] == at
    decreases j
  {
    var i := Parent(j);
    if i != j && Less(q, j, i) {
      SwapAgrees(q, i, j);
      UpNamesItself(Swap(q, i, j, true), i);
    }
  }

  // ---------- Operations ----------

  lemma DropAgrees(d: Near)
    requires Agreement(d) && d.heap != []
    ensures var last := d.heap[|d.heap| - 1].key;
            Agreement(Near(d.heap[..|d.heap| - 1], d.index - {last}))
  {
  }

  lemma RemoveAtAgrees(q: Near, i: int)
    requires 0 <= i < |q.heap| && Agreement(q)
    ensures var r := RemoveAt(q, i, true).0;
            Agreement(r.(index := r.index - {q.heap[i].key})) && r.index.Keys == q.index.Keys
  {
    var n := |q.heap| - 1;
    if n == i {
      DropAgrees(q);
    } else {
      var s := Swap(q, i, n, true);
      SwapAgrees(q, i, n);
      DownElseUpAgrees(s, i, n);
      DownElseUpKeeps(s, i, n, true);
      DropAgrees(DownElseUp(s, i, n, true));
    }
  }

  lemma PopAgrees(q: Near)
    requires q.heap != [] && Agreement(q)
    ensures var (r, e) := Pop(q, true);
            e.key == q.heap[0].key && Agreement(r.(index := r.index - {e.key})) && r.index.Keys == q.index.Keys
  {
    var n := |q.heap| - 1;
    var s := Swap(q, 0, n, true);
    SwapAgrees(q, 0, n);
    if n > 0 {
      DownAgrees(s, 0, n);
      DownKeeps(s, 0, n, true);
    }
    DropAgrees(Down(s, 0, n, true).0);
  }

  /** Two agreeing queues whose bags differ by given items have maps that differ by those keys. */
  lemma MapFromBag(q: Near, r: Near, gone: multiset<(Str, int)>, come: multiset<(Str, int)>)
    requires Agreement(q) && Agreement(r) && Bag(r.heap) == Bag(q.heap) - gone + come
    ensures forall k :: k in Deadlines(r) && (k, Deadlines(r)[k]) !in come ==>
              k in Deadlines(q) && Deadlines(q)[k] == Deadlines(r)[k]
    ensures forall k, x :: (k, x) in come ==> k in Deadlines(r) && Deadlines(r)[k] == x
  {
    forall k | k in Deadlines(r) && (k, Deadlines(r)[k]) !in come
      ensures k in Deadlines(q) && Deadlines(q)[k] == Deadlines(r)[k]
    {
      BagIsMap(r, k, Deadlines(r)[k]);
      BagIsMap(q, k, Deadlines(r)[k]);
    }
    forall k, x | (k, x) in come
      ensures k in Deadlines(r) && Deadlines(r)[k] == x
    {
      BagIsMap(r, k, x);
    }
  }

  lemma MapRemoved(q: Near, r: Near, key: Str, gone: multiset<(Str, int)>)
    requires Agreement(q) && Agreement(r) && r.index.Keys == q.index.Keys - {key}
    requires Bag(r.heap) == Bag(q.heap) - gone
    ensures Deadlines(r) == Deadlines(q) - {key}
  {
    MapFromBag(q, r, gone, multiset{});
    assert Deadlines(r).Keys == Deadlines(q).Keys - {key};
  }

  /** Remove takes out exactly the named key. */
  lemma RepairedRemove(q: Near, key: Str)
    requires Agreement(q)
    ensures var r := Remove(q, key, true);
            r.Done? && Agreement(r.q) && Deadlines(r.q) == Deadlines(q) - {key}
  {
    if key in q.index {
      var i := q.index[key];
      RemoveAtAgrees(q, i);
      RemoveAtExact(q, i, true);
      var r := Remove(q, key, true).q;
      MapRemoved(q, r, key, multiset{Item(q.heap[i])});
    }
  }

  lemma MapUpdated(q: Near, r: Near, key: Str, expireAt: int, gone: multiset<(Str, int)>)
    requires Agreement(q) && Agreement(r) && r.index.Keys == q.index.Keys + {key}
    requires Bag(r.heap) == Bag(q.heap) - gone + multiset{(key, expireAt)}
    ensures Deadlines(r) == Deadlines(q)[key := expireAt]
  {
    hide Bag, Agreement;
    MapFromBag(q, r, gone, multiset{(key, expireAt)});
    assert (key, expireAt) in multiset{(key, expireAt)};
    assert Deadlines(r).Keys == Deadlines(q)[key := expireAt].Keys;
  }

  lemma RepairedReschedule(q: Near, key: Str, expireAt: int)
    requires Agreement(q) && key in q.index
    ensures var at := q.index[key];
            var q' := q.(heap := q.heap[at := q.heap[at].(expireAt := expireAt)]);
            var r := DownElseUp(q', at, |q.heap|, true);
            Agreement(r) && Deadlines(r) == Deadlines(q)[key := expireAt]
  {
    var at := q.index[key];
    var q' := q.(heap := q.heap[at := q.heap[at].(expireAt := expireAt)]);
    assert Agreement(q');
    DownElseUpAgrees(q', at, |q.heap|);
    FixExact(q, at, expireAt, true);
    MapUpdated(q, DownElseUp(q', at, |q.heap|, true), key, expireAt, multiset{Item(q.heap[at])});
  }

  lemma RepairedPush(q: Near, key: Str, expireAt: int)
    requires Agreement(q) && key !in q.index
    ensures var (p, at) := Push(q, NearEntry(key, expireAt, 0), true);
            var r := p.(index := p.index[key := at]);
            Agreement(r) && Deadlines(r) == Deadlines(q)[key := expireAt]
  {
    var n := |q.heap|;
    var e := NearEntry(key, expireAt, 0);
    var start := q.(heap := q.heap + [e.(index := n)]);
    assert Agreement(start.(index := start.index[key := n]));
    UpAgrees(start, n);
    PushExact(q, e, true);
    var (p, at) := Push(q, e, true);
    MapUpdated(q, p.(index := p.index[key := at]), key, expireAt, multiset{});
  }

  /** Add sets the key's deadline, new or not, and no other. */
  lemma RepairedAdd(q: Near, key: Str, expireAt: int, nowMs: int, windowMs: int)
    requires Agreement(q) && DeadlineMs(expireAt) - nowMs <= windowMs
    ensures var a := Add(q, key, expireAt, nowMs, windowMs, true);
            a.Done? && Agreement(a.q) && Deadlines(a.q) == Deadlines(q)[key := expireAt]
  {
    if key in q.index {
      RepairedReschedule(q, key, expireAt);
    } else {
      RepairedPush(q, key, expireAt);
    }
  }

  lemma DrainedItem(q: Near, nowMs: int, k: Str, x: int)
    requires Agreement(q) && NearOk(q.heap) && Agreement(Drain(q, nowMs, true).0)
    ensures var (r, popped) := Drain(q, nowMs, true);
            (k in Deadlines(r) && Deadlines(r)[k] == x <==>
             k in Deadlines(q) && Deadlines(q)[k] == x && DeadlineMs(x) > nowMs) &&
            ((exists i :: 0 <= i < |popped| && Item(popped[i]) == (k, x)) <==>
             k in Deadlines(q) && Deadlines(q)[k] == x && DeadlineMs(x) <= nowMs)
  {
    DrainExact(q, nowMs, true);
    var (r, popped) := Drain(q, nowMs, true);
    BagIsMap(q, k, x);
    BagIsMap(r, k, x);
    BagMember(r.heap, (k, x));
    BagMember(popped, (k, x));
    assert (k, x) in Bag(popped) ==> DeadlineMs(x) <= nowMs;
    assert (k, x) in Bag(r.heap) ==> DeadlineMs(x) > nowMs;
    assert (k, x) in Bag(q.heap) <==> (k, x) in Bag(popped) || (k, x) in Bag(r.heap);
  }

  /** DrainExpired takes exactly the keys that are due, and keeps agreement. */
  lemma RepairedDrain(q: Near, nowMs: int)
    requires Agreement(q) && NearOk(q.heap)
    ensures var r := Drain(q, nowMs, true).0;
            Agreement(r) &&
            Deadlines(r) == map k | k in Deadlines(q) && DeadlineMs(Deadlines(q)[k]) > nowMs :: Deadlines(q)[k]
    ensures var popped := Drain(q, nowMs, true).1;
            forall k :: (exists i :: 0 <= i < |popped| && popped[i].key == k) <==>
                        k in Deadlines(q) && DeadlineMs(Deadlines(q)[k]) <= nowMs
  {
    DrainAgrees(q, nowMs);
    var (r, popped) := Drain(q, nowMs, true);
    forall k
      ensures k in Deadlines(r) <==> k in Deadlines(q) && DeadlineMs(Deadlines(q)[k]) > nowMs
      ensures k in Deadlines(r) ==> Deadlines(r)[k] == Deadlines(q)[k]
      ensures (exists i :: 0 <= i < |popped| && popped[i].key == k) <==>
              k in Deadlines(q) && DeadlineMs(Deadlines(q)[k]) <= nowMs
    {
      if k in Deadlines(q) {
        DrainedItem(q, nowMs, k, Deadlines(q)[k]);
      }
      if k in Deadlines(r) {
        DrainedItem(q, nowMs, k, Deadlines(r)[k]);
      }
      if i :| 0 <= i < |popped| && popped[i].key == k {
        DrainedItem(q, nowMs, k, popped[i].expireAt);
        assert Item(popped[i]) == (k, popped[i].expireAt);
      }
    }
  }

  lemma {:induction false} DrainAgrees(q: Near, nowMs: int)
    requires Agreement(q)
    ensures Agreement(Drain(q, nowMs, true).0)
    decreases |q.heap|
  {
    if q.heap != [] && DeadlineMs(q.heap[0].expireAt) <= nowMs {
      PopAgrees(q);
      var (p, e) := Pop(q, true);
      DrainAgrees(p.(index := p.index - {e.key}), nowMs);
    }
  }
}
