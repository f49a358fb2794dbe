/** The near queue of the garbage collector: a binary heap on deadlines in which every entry
    records its own position, and a map from keys to positions. Every operation takes a flag
    `repaired`: false is the code as it stands, whose Swap leaves the map alone; true is the
    variant whose Swap also moves the two map entries. The algorithms on the heap are those of
    package container/heap. */
module NearModel {
  import opened GoTypes

  datatype NearEntry = NearEntry(key: Str, expireAt: int, index: int)

  datatype Near = Near(heap: seq<NearEntry>, index: map<Str, int>)

  function Parent(j: int): int {
    if j == 0 then 0 else (j - 1) / 2
  }

  predicate Less(q: Near, i: int, j: int)
    requires 0 <= i < |q.heap| && 0 <= j < |q.heap|
  {
    q.heap[i].expireAt < q.heap[j].expireAt
  }

  function Swap(q: Near, i: int, j: int, repaired: bool): (r: Near)
    requires 0 <= i < |q.heap| && 0 <= j < |q.heap|
    ensures |r.heap| == |q.heap|
  {
    Near(q.heap[i := q.heap[j].(index := i)][j := q.heap[i].(index := j)],
         if repaired then q.index[q.heap[j].key := i][q.heap[i].key := j] else q.index)
  }

  /** heap.up: the queue, and the position where the sifted entry comes to rest. */
  function Up(q: Near, j: int, repaired: bool): (r: (Near, int))
    requires 0 <= j < |q.heap|
    ensures |r.0.heap| == |q.heap| && 0 <= r.1 <= j
    decreases j
  {
    var i := Parent(j);
    if i == j || !Less(q, j, i) then (q, j) else Up(Swap(q, i, j, repaired), i, repaired)
  }

  function SmallerChild(q: Near, i: int, n: int): (c: int)
    requires 0 <= i && 2 * i + 1 < n <= |q.heap|
    ensures c == 2 * i + 1 || (c == 2 * i + 2 && c < n)
  {
    if 2 * i + 2 < n && Less(q, 2 * i + 2, 2 * i + 1) then 2 * i + 2 else 2 * i + 1
  }

  /** heap.down within the first n entries: the queue, and where the sifted entry comes to rest. */
  function Down(q: Near, i: int, n: int, repaired: bool): (r: (Near, int))
    requires 0 <= i && n <= |q.heap|
    ensures |r.0.heap| == |q.heap| && i <= r.1
    decreases n - i
  {
    if 2 * i + 1 >= n then (q, i) else
      var j := SmallerChild(q, i, n);
      if !Less(q, j, i) then (q, i) else Down(Swap(q, i, j, repaired), j, n, repaired)
  }

  function DownElseUp(q: Near, i: int, n: int, repaired: bool): (r: Near)
    requires 0 <= i < n <= |q.heap|
    ensures |r.heap| == |q.heap|
  {
    var (d, at) := Down(q, i, n, repaired);
    if at > i then d else Up(d, i, repaired).0
  }

  function Push(q: Near, e: NearEntry, repaired: bool): (r: (Near, int))
    ensures |r.0.heap| == |q.heap| + 1 && 0 <= r.1 <= |q.heap|
  {
    var n := |q.heap|;
    Up(q.(heap := q.heap + [e.(index := n)]), n, repaired)
  }

  function DropLast(q: Near): Near
    requires q.heap != []
  {
    q.(heap := q.heap[..|q.heap| - 1])
  }

  function Pop(q: Near, repaired: bool): (r: (Near, NearEntry))
    requires q.heap != []
    ensures |r.0.heap| == |q.heap| - 1
  {
    var n := |q.heap| - 1;
    var d := Down(Swap(q, 0, n, repaired), 0, n, repaired).0;
    (DropLast(d), d.heap[n])
  }

  function RemoveAt(q: Near, i: int, repaired: bool): (r: (Near, NearEntry))
    requires 0 <= i < |q.heap|
    ensures |r.0.heap| == |q.heap| - 1
  {
    var n := |q.heap| - 1;
    var d := if n == i then q else DownElseUp(Swap(q, i, n, repaired), i, n, repaired);
    (DropLast(d), d.heap[n])
  }

  // ---------- NearQueue operations ----------

  /** Panicked is Go's index-out-of-range panic. */
  datatype Outcome = Done(q: Near) | TooFar | Panicked

  function Add(q: Near, key: Str, expireAt: int, nowMs: int, windowMs: int, repaired: bool): Outcome {
    if DeadlineMs(expireAt) - nowMs > windowMs then TooFar
    else if key in q.index then
      var at := q.index[key];
      if !(0 <= at < |q.heap|) then Panicked
      else Done(DownElseUp(q.(heap := q.heap[at := q.heap[at].(expireAt := expireAt)]), at, |q.heap|, repaired))
    else
      var (p, at) := Push(q, NearEntry(key, expireAt, 0), repaired);
      Done(p.(index := p.index[key := at]))
  }

  function Remove(q: Near, key: Str, repaired: bool): Outcome {
    if key !in q.index then Done(q)
    else if !(0 <= q.index[key] < |q.heap|) then Panicked
    else
      var r := RemoveAt(q, q.index[key], repaired).0;
      Done(r.(index := r.index - {key}))
  }

  /** The queue left by DrainExpired, and the entries it popped, first to last. */
  function Drain(q: Near, nowMs: int, repaired: bool): (r: (Near, seq<NearEntry>))
    decreases |q.heap|
  {
    if q.heap == [] || DeadlineMs(q.heap[0].expireAt) > nowMs then (q, []) else
      var (p, e) := Pop(q, repaired);
      var (r, rest) := Drain(p.(index := p.index - {e.key}), nowMs, repaired);
      (r, [e] + rest)
  }

  // ---------- Invariants ----------

  ghost predicate Ordered(h: seq<NearEntry>, c: int)
    requires 0 < c < |h|
  {
    h[Parent(c)].expireAt <= h[c].expireAt
  }

  ghost predicate HeapOrdered(h: seq<NearEntry>, n: int)
    requires n <= |h|
  {
    forall c :: 0 < c < n ==> Ordered(h, c)
  }

  ghost predicate PositionsOk(h: seq<NearEntry>) {
    forall i :: 0 <= i < |h| ==> h[i].index == i
  }

  /** The map names every entry's position, and nothing else. */
  ghost predicate Agreement(q: Near) {
    && (forall k :: k in q.index ==> 0 <= q.index[k] < |q.heap| && q.heap[q.index[k]].key == k)
    && (forall i :: 0 <= i < |q.heap| ==> q.heap[i].key in q.index && q.index[q.heap[i].key] == i)
  }

  function Strip(h: seq<NearEntry>): (s: seq<(Str, int)>)
    ensures |s| == |h|
  {
    seq(|h|, i requires 0 <= i < |h| => (h[i].key, h[i].expireAt))
  }

  /** What the queue holds: keys with their deadlines, wherever they stand. */
  function Bag(h: seq<NearEntry>): multiset<(Str, int)> {
    multiset(Strip(h))
  }

  function Item(e: NearEntry): (Str, int) {
    (e.key, e.expireAt)
  }

  // ---------- Swaps and sifts move entries and lose none ----------

  lemma SwapKeeps(q: Near, i: int, j: int, repaired: bool)
    requires 0 <= i < |q.heap| && 0 <= j < |q.heap|
    ensures Bag(Swap(q, i, j, repaired).heap) == Bag(q.heap)
    ensures PositionsOk(q.heap) ==> PositionsOk(Swap(q, i, j, repaired).heap)
  {
    var s, t := Strip(q.heap), Strip(Swap(q, i, j, repaired).heap);
    assert t == s[i := s[j]][j := s[i]];
  }

  lemma {:induction false} UpKeeps(q: Near, j: int, repaired: bool)
    requires 0 <= j < |q.heap|
    ensures var (r, at) := Up(q, j, repaired);
            Bag(r.heap) == Bag(q.heap) && (PositionsOk(q.heap) ==> PositionsOk(r.heap)) &&
            Item(r.heap[at]) == Item(q.heap[j]) &&
            forall x :: j < x < |q.heap| ==> r.heap[x] == q.heap[x]
    decreases j
  {
    var i := Parent(j);
    if i != j && Less(q, j, i) {
      SwapKeeps(q, i, j, repaired);
      UpKeeps(Swap(q, i, j, repaired), i, repaired);
    }
  }

  lemma {:induction false} DownKeeps(q: Near, i: int, n: int, repaired: bool)
    requires 0 <= i < n <= |q.heap|
    ensures var (r, at) := Down(q, i, n, repaired);
            Bag(r.heap) == Bag(q.heap) && (PositionsOk(q.heap) ==> PositionsOk(r.heap)) && at < n &&
            (forall x :: 0 <= x < i || n <= x < |q.heap| ==> r.heap[x] == q.heap[x])
    decreases n - i
  {
    if 2 * i + 1 < n {
      var j := SmallerChild(q, i, n);
      if Less(q, j, i) {
        SwapKeeps(q, i, j, repaired);
        DownKeeps(Swap(q, i, j, repaired), j, n, repaired);
      }
    }
  }

  lemma DownElseUpKeeps(q: Near, i: int, n: int, repaired: bool)
    requires 0 <= i < n <= |q.heap|
    ensures var r := DownElseUp(q, i, n, repaired);
            Bag(r.heap) == Bag(q.heap) && (PositionsOk(q.heap) ==> PositionsOk(r.heap)) &&
            forall x :: n <= x < |q.heap| ==> r.heap[x] == q.heap[x]
  {
    DownKeeps(q, i, n, repaired);
    UpKeeps(Down(q, i, n, repaired).0, i, repaired);
  }

  // ---------- Heap order ----------

  /** Ordered but for entry j, which may be too early for its parent. */
  ghost predicate OrderedButUp(h: seq<NearEntry>, j: int, n: int)
    requires 0 <= j < n <= |h|
  {
    && (forall c :: 0 < c < n && c != j ==> Ordered(h, c))
    && (forall c :: 0 < c < n && Parent(c) == j && j > 0 ==> h[Parent(j)].expireAt <= h[c].expireAt)
  }

  /** Ordered but around entry i, which may be too early for its parent or too late for its children. */
  ghost predicate OrderedButAround(h: seq<NearEntry>, i: int, n: int)
    requires 0 <= i < n <= |h|
  {
    && (forall c :: 0 < c < n && c != i && Parent(c) != i ==> Ordered(h, c))
    && (forall c :: 0 < c < n && Parent(c) == i && i > 0 ==> h[Parent(i)].expireAt <= h[c].expireAt)
  }

  lemma {:induction false} UpOrders(q: Near, j: int, n: int, repaired: bool)
    requires 0 <= j < n <= |q.heap| && OrderedButUp(q.heap, j, n)
    ensures HeapOrdered(Up(q, j, repaired).0.heap, n)
    decreases j
  {
    var i := Parent(j);
    if i != j && Less(q, j, i) {
      var s := Swap(q, i, j, repaired);
      forall c | 0 < c < n
        ensures c != i ==> Ordered(s.heap, c)
        ensures Parent(c) == i && i > 0 ==> s.heap[Parent(i)].expireAt <= s.heap[c].expireAt
      {
        assert i > 0 ==> Ordered(q.heap, i);
        assert c != j ==> Ordered(q.heap, c);
      }
      UpOrders(s, i, n, repaired);
    } else {
      assert j > 0 ==> Ordered(q.heap, j);
    }
  }

  /** One swap of heap.down moves the disorder to the child's place. */
  lemma DownSwapOrders(q: Near, i: int, n: int, repaired: bool)
    requires 0 <= i < n <= |q.heap| && OrderedButAround(q.heap, i, n)
    requires 2 * i + 1 < n && Less(q, SmallerChild(q, i, n), i)
    ensures var j := SmallerChild(q, i, n);
            var h := Swap(q, i, j, repaired).heap;
            Ordered(h, j) && OrderedButAround(h, j, n)
  {
    var j := SmallerChild(q, i, n);
    var h := Swap(q, i, j, repaired).heap;
    forall c | 0 < c < n
      ensures Parent(c) != j ==> Ordered(h, c)
      ensures Parent(c) == j ==> h[Parent(j)].expireAt <= h[c].expireAt
    {
      assert c != i && Parent(c) != i ==> Ordered(q.heap, c);
    }
  }

  lemma RestsOrdered(q: Near, i: int, n: int)
    requires 0 <= i < n <= |q.heap| && OrderedButAround(q.heap, i, n)
    requires 2 * i + 1 >= n || !Less(q, SmallerChild(q, i, n), i)
    ensures OrderedButUp(q.heap, i, n)
  {
    forall c | 0 < c < n && c != i
      ensures Ordered(q.heap, c)
    {
    }
  }

  lemma {:induction false} DownOrders(q: Near, i: int, n: int, repaired: bool)
    requires 0 <= i < n <= |q.heap| && OrderedButAround(q.heap, i, n)
    ensures var (r, at) := Down(q, i, n, repaired);
            (at > i || i == 0 || Ordered(q.heap, i) ==> HeapOrdered(r.heap, n)) &&
            (at == i ==> r == q && OrderedButUp(q.heap, i, n))
    decreases n - i
  {
    if 2 * i + 1 < n && Less(q, SmallerChild(q, i, n), i) {
      DownSwapOrders(q, i, n, repaired);
      DownOrders(Swap(q, i, SmallerChild(q, i, n), repaired), SmallerChild(q, i, n), n, repaired);
    } else {
      RestsOrdered(q, i, n);
    }
  }

  lemma DownElseUpOrders(q: Near, i: int, n: int, repaired: bool)
    requires 0 <= i < n <= |q.heap| && OrderedButAround(q.heap, i, n)
    ensures HeapOrdered(DownElseUp(q, i, n, repaired).heap, n)
  {
    DownOrders(q, i, n, repaired);
    if Down(q, i, n, repaired).1 == i {
      UpOrders(q, i, n, repaired);
    }
  }

  lemma {:induction false} RootIsEarliest(h: seq<NearEntry>, j: int)
    requires HeapOrdered(h, |h|) && 0 <= j < |h|
    ensures h[0].expireAt <= h[j].expireAt
    decreases j
  {
    if j > 0 {
      assert Ordered(h, j);
      RootIsEarliest(h, Parent(j));
    }
  }
}
