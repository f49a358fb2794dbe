/** What the near queue guarantees with either Swap: which entries each operation takes out or puts
    in, the order of the heap, and exact draining. */
module NearQueueProofs {
  import opened GoTypes
  import opened NearModel

  ghost predicate NearOk(h: seq<NearEntry>) {
    HeapOrdered(h, |h|) && PositionsOk(h)
  }

  lemma BagOfPrefix(h: seq<NearEntry>)
    requires h != []
    ensures var n := |h| - 1; Bag(h[..n]) == Bag(h) - multiset{Item(h[n])}
  {
    var n := |h| - 1;
    assert Strip(h) == Strip(h[..n]) + [Item(h[n])];
  }

  lemma BagOfAppend(h: seq<NearEntry>, e: NearEntry)
    ensures Bag(h + [e]) == Bag(h) + multiset{Item(e)}
  {
    assert Strip(h + [e]) == Strip(h) + [Item(e)];
  }

  lemma BagMember(h: seq<NearEntry>, it: (Str, int))
    ensures it in Bag(h) <==> exists i :: 0 <= i < |h| && Item(h[i]) == it
  {
    assert it in Bag(h) <==> it in Strip(h);
    forall i | 0 <= i < |h|
      ensures Strip(h)[i] == Item(h[i])
    {
    }
  }

  lemma OrderOfPrefix(h: seq<NearEntry>, n: int)
    requires 0 <= n <= |h| && HeapOrdered(h, n) && PositionsOk(h)
    ensures NearOk(h[..n])
  {
    forall c | 0 < c < n
      ensures Ordered(h[..n], c)
    {
      assert Ordered(h, c);
    }
  }

  // ---------- The heap operations ----------

  lemma SwapLastAround(q: Near, i: int, repaired: bool)
    requires 0 <= i < |q.heap| - 1 && HeapOrdered(q.heap, |q.heap|)
    ensures OrderedButAround(Swap(q, i, |q.heap| - 1, repaired).heap, i, |q.heap| - 1)
  {
    var n := |q.heap| - 1;
    var s := Swap(q, i, n, repaired);
    forall c | 0 < c < n
      ensures c != i && Parent(c) != i ==> Ordered(s.heap, c)
      ensures Parent(c) == i && i > 0 ==> s.heap[Parent(i)].expireAt <= s.heap[c].expireAt
    {
      assert Ordered(q.heap, c);
      assert i > 0 ==> Ordered(q.heap, i);
    }
  }

  lemma SwapAndSiftKeeps(q: Near, i: int, n: int, repaired: bool)
    requires 0 <= i < n < |q.heap|
    ensures var d := DownElseUp(Swap(q, i, n, repaired), i, n, repaired);
            Bag(d.heap) == Bag(q.heap) && Item(d.heap[n]) == Item(q.heap[i])
  {
    SwapKeeps(q, i, n, repaired);
    DownElseUpKeeps(Swap(q, i, n, repaired), i, n, repaired);
  }

  /** heap.Remove takes out the entry at position i, and nothing else. */
  lemma RemoveAtExact(q: Near, i: int, repaired: bool)
    requires 0 <= i < |q.heap|
    ensures var (r, e) := RemoveAt(q, i, repaired);
            Item(e) == Item(q.heap[i]) && Bag(r.heap) == Bag(q.heap) - multiset{Item(q.heap[i])}
  {
    hide DownElseUp, Swap, Bag;
    var n := |q.heap| - 1;
    if n == i {
      BagOfPrefix(q.heap);
    } else {
      SwapAndSiftKeeps(q, i, n, repaired);
      BagOfPrefix(DownElseUp(Swap(q, i, n, repaired), i, n, repaired).heap);
    }
  }

  lemma SiftedPrefix(q: Near, i: int, n: int, repaired: bool)
    requires 0 <= i < n <= |q.heap| && OrderedButAround(q.heap, i, n) && PositionsOk(q.heap)
    ensures NearOk(DownElseUp(q, i, n, repaired).heap[..n])
  {
    DownElseUpKeeps(q, i, n, repaired);
    DownElseUpOrders(q, i, n, repaired);
    OrderOfPrefix(DownElseUp(q, i, n, repaired).heap, n);
  }

  lemma RemoveAtOrders(q: Near, i: int, repaired: bool)
    requires 0 <= i < |q.heap| && NearOk(q.heap)
    ensures NearOk(RemoveAt(q, i, repaired).0.heap)
  {
    hide NearOk, HeapOrdered, PositionsOk, Swap, Up, Down, DownElseUp;
    var n := |q.heap| - 1;
    if n == i {
      LastGone(q.heap);
    } else {
      SwappedOut(q, i, repaired);
    }
  }

  lemma LastGone(h: seq<NearEntry>)
    requires h != [] && NearOk(h)
    ensures NearOk(h[..|h| - 1])
  {
    OrderOfPrefix(h, |h| - 1);
  }

  /** Entry i and the last one trade places, and the sift restores the order before the last place. */
  lemma SwappedOut(q: Near, i: int, repaired: bool)
    requires 0 <= i < |q.heap| - 1 && NearOk(q.heap)
    ensures var n := |q.heap| - 1; NearOk(DownElseUp(Swap(q, i, n, repaired), i, n, repaired).heap[..n])
  {
    var n := |q.heap| - 1;
    SwapKeeps(q, i, n, repaired);
    SwapLastAround(q, i, repaired);
    hide Swap, OrderedButAround, HeapOrdered, Ordered, DownElseUp, Bag;
    SiftedPrefix(Swap(q, i, n, repaired), i, n, repaired);
  }

  /** heap.Pop is removal at the root. */
  lemma PopExact(q: Near, repaired: bool)
    requires q.heap != []
    ensures var (r, e) := Pop(q, repaired);
            Item(e) == Item(q.heap[0]) && Bag(r.heap) == Bag(q.heap) - multiset{Item(q.heap[0])}
  {
    var n := |q.heap| - 1;
    var s := Swap(q, 0, n, repaired);
    SwapKeeps(q, 0, n, repaired);
    if n > 0 {
      DownKeeps(s, 0, n, repaired);
    }
    BagOfPrefix(Down(s, 0, n, repaired).0.heap);
  }

  lemma PopOrders(q: Near, repaired: bool)
    requires q.heap != [] && NearOk(q.heap)
    ensures NearOk(Pop(q, repaired).0.heap)
  {
    var n := |q.heap| - 1;
    var s := Swap(q, 0, n, repaired);
    SwapKeeps(q, 0, n, repaired);
    if n > 0 {
      DownKeeps(s, 0, n, repaired);
      SwapLastAround(q, 0, repaired);
      DownOrders(s, 0, n, repaired);
    }
    OrderOfPrefix(Down(s, 0, n, repaired).0.heap, n);
  }

  lemma PushExact(q: Near, e: NearEntry, repaired: bool)
    ensures var (r, at) := Push(q, e, repaired);
            Bag(r.heap) == Bag(q.heap) + multiset{Item(e)} && Item(r.heap[at]) == Item(e) &&
            (NearOk(q.heap) ==> NearOk(r.heap))
  {
    var n := |q.heap|;
    var e' := e.(index := n);
    var p := q.(heap := q.heap + [e']);
    BagOfAppend(q.heap, e');
    UpKeeps(p, n, repaired);
    if NearOk(q.heap) {
      forall c {:trigger Ordered(p.heap, c)} | 0 < c < n
        ensures Ordered(p.heap, c)
      {
        assert Ordered(q.heap, c);
      }
      UpOrders(p, n, n + 1, repaired);
    }
  }

  /** Changing one deadline and calling heap.Fix moves entries, and restores the order. */
  lemma FixExact(q: Near, at: int, expireAt: int, repaired: bool)
    requires 0 <= at < |q.heap|
    ensures var q' := q.(heap := q.heap[at := q.heap[at].(expireAt := expireAt)]);
            var r := DownElseUp(q', at, |q.heap|, repaired);
            Bag(r.heap) == Bag(q.heap) - multiset{Item(q.heap[at])} + multiset{(q.heap[at].key, expireAt)} &&
            (NearOk(q.heap) ==> NearOk(r.heap))
  {
    var n := |q.heap|;
    var q' := q.(heap := q.heap[at := q.heap[at].(expireAt := expireAt)]);
    assert Strip(q'.heap) == Strip(q.heap)[at := (q.heap[at].key, expireAt)];
    DownElseUpKeeps(q', at, n, repaired);
    if NearOk(q.heap) {
      forall c | 0 < c < n
        ensures c != at && Parent(c) != at ==> Ordered(q'.heap, c)
        ensures Parent(c) == at && at > 0 ==> q'.heap[Parent(at)].expireAt <= q'.heap[c].expireAt
      {
        assert Ordered(q.heap, c);
        assert at > 0 ==> Ordered(q.heap, at);
      }
      DownElseUpOrders(q', at, n, repaired);
    }
  }

  // ---------- Heap order and draining: the code as it stands ----------

  /** Whatever the position map says, Add and Remove keep the heap ordered and its positions right. */
  lemma OperationsKeepOrder(q: Near, key: Str, expireAt: int, nowMs: int, windowMs: int, repaired: bool)
    requires NearOk(q.heap)
    ensures var a := Add(q, key, expireAt, nowMs, windowMs, repaired); a.Done? ==> NearOk(a.q.heap)
    ensures var r := Remove(q, key, repaired); r.Done? ==> NearOk(r.q.heap)
  {
    if key in q.index {
      if 0 <= q.index[key] < |q.heap| {
        FixExact(q, q.index[key], expireAt, repaired);
        RemoveAtOrders(q, q.index[key], repaired);
      }
    } else {
      PushExact(q, NearEntry(key, expireAt, 0), repaired);
    }
  }

  ghost predicate EarliestFirst(popped: seq<NearEntry>) {
    forall i, j :: 0 <= i < j < |popped| ==> popped[i].expireAt <= popped[j].expireAt
  }

  ghost predicate AllDue(h: seq<NearEntry>, nowMs: int) {
    forall i :: 0 <= i < |h| ==> DeadlineMs(h[i].expireAt) <= nowMs
  }

  ghost predicate AllLater(h: seq<NearEntry>, nowMs: int) {
    forall i :: 0 <= i < |h| ==> DeadlineMs(h[i].expireAt) > nowMs
  }

  ghost predicate NoneBefore(h: seq<NearEntry>, expireAt: int) {
    forall i :: 0 <= i < |h| ==> expireAt <= h[i].expireAt
  }

  /** The root bounds whatever is left after a Pop. */
  lemma PopLeavesLater(q: Near, repaired: bool)
    requires q.heap != [] && NearOk(q.heap)
    ensures NoneBefore(Pop(q, repaired).0.heap, q.heap[0].expireAt)
  {
    var p := Pop(q, repaired).0;
    PopExact(q, repaired);
    forall i | 0 <= i < |p.heap|
      ensures q.heap[0].expireAt <= p.heap[i].expireAt
    {
      BagMember(p.heap, Item(p.heap[i]));
      BagMember(q.heap, Item(p.heap[i]));
      var j :| 0 <= j < |q.heap| && Item(q.heap[j]) == Item(p.heap[i]);
      RootIsEarliest(q.heap, j);
    }
  }

  lemma LaterRootAllLater(h: seq<NearEntry>, nowMs: int)
    requires NearOk(h) && h != [] && DeadlineMs(h[0].expireAt) > nowMs
    ensures AllLater(h, nowMs)
  {
    forall i | 0 <= i < |h|
      ensures DeadlineMs(h[i].expireAt) > nowMs
    {
      RootIsEarliest(h, i);
      TruncDivMonotone(h[0].expireAt, h[i].expireAt, NANOS_PER_MILLI);
    }
  }

  /** One round of DrainExpired. */
  lemma PopEarliest(q: Near, repaired: bool)
    requires q.heap != [] && NearOk(q.heap)
    ensures var (p, e) := Pop(q, repaired);
            e.expireAt == q.heap[0].expireAt && NearOk(p.heap) && NoneBefore(p.heap, e.expireAt) &&
            multiset{Item(e)} + Bag(p.heap) == Bag(q.heap)
  {
    PopExact(q, repaired);
    PopOrders(q, repaired);
    PopLeavesLater(q, repaired);
    BagMember(q.heap, Item(q.heap[0]));
  }

  lemma {:induction false} DrainBound(q: Near, nowMs: int, repaired: bool, t: int)
    requires NearOk(q.heap) && NoneBefore(q.heap, t)
    ensures NoneBefore(Drain(q, nowMs, repaired).1, t)
    decreases |q.heap|
  {
    if q.heap != [] && DeadlineMs(q.heap[0].expireAt) <= nowMs {
      var (p, e) := Pop(q, repaired);
      PopEarliest(q, repaired);
      DrainBound(p.(index := p.index - {e.key}), nowMs, repaired, t);
    }
  }

  lemma Prepend(e: NearEntry, rest: seq<NearEntry>, nowMs: int)
    requires DeadlineMs(e.expireAt) <= nowMs && AllDue(rest, nowMs)
    requires EarliestFirst(rest) && NoneBefore(rest, e.expireAt)
    ensures AllDue([e] + rest, nowMs) && EarliestFirst([e] + rest)
    ensures Bag([e] + rest) == multiset{Item(e)} + Bag(rest)
  {
    assert Strip([e] + rest) == [Item(e)] + Strip(rest);
  }

  ghost predicate Drained(before: seq<NearEntry>, popped: seq<NearEntry>, left: seq<NearEntry>, nowMs: int) {
    && NearOk(left) && AllLater(left, nowMs) && AllDue(popped, nowMs) && EarliestFirst(popped)
    && Bag(popped) + Bag(left) == Bag(before)
  }

  /** DrainExpired takes out exactly the entries that are due, earliest first, and leaves a heap
      of entries that are all later than now. */
  lemma {:induction false} DrainExact(q: Near, nowMs: int, repaired: bool)
    requires NearOk(q.heap)
    ensures var (r, popped) := Drain(q, nowMs, repaired);
            Drained(q.heap, popped, r.heap, nowMs)
    decreases |q.heap|
  {
    if q.heap == [] {
    } else if DeadlineMs(q.heap[0].expireAt) > nowMs {
      LaterRootAllLater(q.heap, nowMs);
    } else {
      PopEarliest(q, repaired);
      var (p, e) := Pop(q, repaired);
      var p' := p.(index := p.index - {e.key});
      DrainExact(p', nowMs, repaired);
      DrainBound(p', nowMs, repaired, e.expireAt);
      var (r, rest) := Drain(p', nowMs, repaired);
      Prepend(e, rest, nowMs);
      assert Drain(q, nowMs, repaired) == (r, [e] + rest);
      assert Drained(q.heap, [e] + rest, r.heap, nowMs);
    }
  }
}
