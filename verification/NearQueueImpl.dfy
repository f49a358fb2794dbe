/** The near queue as the code runs it: the sift loops and the drain loop in place, each proved
    against the functions of NearModel with `repaired` false. */
module NearQueues {
  import opened GoTypes
  import M = NearModel
  import opened NearQueueProofs

  type NearEntry = M.NearEntry

  function KeysOf(entries: seq<NearEntry>): seq<Str> {
    seq(|entries|, i requires 0 <= i < |entries| => entries[i].key)
  }

  lemma DownRound(q: M.Near, i: int, n: int)
    requires 0 <= i && 2 * i + 1 < n <= |q.heap|
    ensures var j := M.SmallerChild(q, i, n);
            M.Less(q, j, i) ==> M.Down(q, i, n, false) == M.Down(M.Swap(q, i, j, false), j, n, false)
  {
  }

  lemma DrainEnds(start: M.Near, now: int, popped: seq<NearEntry>, q: M.Near)
    requires NearOk(start.heap) && DrainedSoFar(start, now, popped, q)
    requires q.heap == [] || DeadlineMs(q.heap[0].expireAt) > now
    ensures M.Drain(start, now, false) == (q, popped) && NearOk(q.heap)
  {
    assert popped + [] == popped;
    DrainExact(start, now, false);
  }

  /** What the drain loop has popped so far, and what is still to come. */
  ghost predicate DrainedSoFar(start: M.Near, now: int, popped: seq<NearEntry>, q: M.Near) {
    M.Drain(start, now, false) == (M.Drain(q, now, false).0, popped + M.Drain(q, now, false).1)
  }

  lemma DrainRound(start: M.Near, now: int, popped: seq<NearEntry>, q: M.Near)
    requires DrainedSoFar(start, now, popped, q)
    requires q.heap != [] && DeadlineMs(q.heap[0].expireAt) <= now
    ensures var (p, e) := M.Pop(q, false);
            DrainedSoFar(start, now, popped + [e], p.(index := p.index - {e.key})) &&
            KeysOf(popped + [e]) == KeysOf(popped) + [e.key]
  {
    var (p, e) := M.Pop(q, false);
    var rest := M.Drain(p.(index := p.index - {e.key}), now, false).1;
    assert popped + ([e] + rest) == (popped + [e]) + rest;
  }

  class NearQueue {
    var heap: seq<NearEntry>
    var index: map<Str, int>
    const windowMs: int

    ghost function View(): M.Near
      reads this
    {
      M.Near(heap, index)
    }

    ghost predicate Valid()
      reads this
    {
      NearOk(heap) && forall k :: k in index ==> index[k] >= 0
    }

    constructor (windowMs: int)
      ensures Valid() && View() == M.Near([], map[]) && this.windowMs == windowMs
    {
      heap := [];
      index := map[];
      this.windowMs := windowMs;
    }

    method Swap(i: int, j: int)
      requires 0 <= i < |heap| && 0 <= j < |heap|
      modifies this`heap
      ensures View() == M.Swap(old(View()), i, j, false)
    {
      heap := heap[i := heap[j]][j := heap[i]];
      heap := heap[i := heap[i].(index := i)];
      heap := heap[j := heap[j].(index := j)];
    }

    method SiftUp(start: int) returns (j: int)
      requires 0 <= start < |heap|
      modifies this`heap
      ensures (View(), j) == M.Up(old(View()), start, false)
    {
      j := start;
      while true
        invariant 0 <= j < |heap| == old(|heap|)
        invariant M.Up(View(), j, false) == M.Up(old(View()), start, false)
        decreases j
      {
        var i := TruncDiv(j - 1, 2);
        assert i == M.Parent(j);
        if i == j || !(heap[j].expireAt < heap[i].expireAt) {
          break;
        }
        Swap(i, j);
        j := i;
      }
    }

    method SiftDown(start: int, n: int) returns (moved: bool)
      requires 0 <= start && n <= |heap|
      modifies this`heap
      ensures View() == M.Down(old(View()), start, n, false).0
      ensures moved <==> M.Down(old(View()), start, n, false).1 > start
    {
      var i := start;
      while true
        invariant start <= i && n <= |heap| == old(|heap|)
        invariant M.Down(View(), i, n, false) == M.Down(old(View()), start, n, false)
        decreases n - i
      {
        var j1 := 2 * i + 1;
        if j1 >= n {
          break;
        }
        var j := j1;
        var j2 := j1 + 1;
        if j2 < n && heap[j2].expireAt < heap[j1].expireAt {
          j := j2;
        }
        assert j == M.SmallerChild(View(), i, n);
        if !(heap[j].expireAt < heap[i].expireAt) {
          break;
        }
        DownRound(View(), i, n);
        Swap(i, j);
        i := j;
      }
      moved := i > start;
    }

    method Fix(i: int, n: int)
      requires 0 <= i < n <= |heap|
      modifies this`heap
      ensures View() == M.DownElseUp(old(View()), i, n, false)
    {
      var moved := SiftDown(i, n);
      if !moved {
        var at := SiftUp(i);
      }
    }

    /** heap.Push; at is the index field of the pushed entry afterwards. */
    method Push(e: NearEntry) returns (at: int)
      modifies this`heap
      ensures (View(), at) == M.Push(old(View()), e, false)
    {
      var n := |heap|;
      heap := heap + [e.(index := n)];
      at := SiftUp(|heap| - 1);
    }

    method DropLast() returns (e: NearEntry)
      requires heap != []
      modifies this`heap
      ensures View() == M.DropLast(old(View())) && e == old(heap[|heap| - 1])
    {
      e := heap[|heap| - 1];
      heap := heap[..|heap| - 1];
    }

    method Pop() returns (e: NearEntry)
      requires heap != []
      modifies this`heap
      ensures (View(), e) == M.Pop(old(View()), false)
    {
      var n := |heap| - 1;
      Swap(0, n);
      var moved := SiftDown(0, n);
      e := DropLast();
    }

    method RemoveAt(i: int) returns (e: NearEntry)
      requires 0 <= i < |heap|
      modifies this`heap
      ensures (View(), e) == M.RemoveAt(old(View()), i, false)
    {
      var n := |heap| - 1;
      if n != i {
        Swap(i, n);
        Fix(i, n);
      }
      e := DropLast();
    }

    /** False means the deadline lies beyond the window; a panic leaves the queue as it was. */
    method Add(key: Str, expireAt: int, cachedNow: int) returns (added: bool, panicked: bool)
      requires Valid()
      modifies this
      ensures Valid()
      ensures match M.Add(old(View()), key, expireAt, TruncDiv(cachedNow, NANOS_PER_MILLI), windowMs, false)
              case Done(q) => added && !panicked && View() == q
              case TooFar => !added && !panicked && View() == old(View())
              case Panicked => panicked && View() == old(View())
    {
      var now := TruncDiv(cachedNow, NANOS_PER_MILLI);
      OperationsKeepOrder(View(), key, expireAt, now, windowMs, false);
      if TruncDiv(expireAt, NANOS_PER_MILLI) - now > windowMs {
        return false, false;
      }
      if key in index {
        var idx := index[key];
        if idx >= |heap| {
          return false, true;
        }
        var e := heap[idx].(expireAt := expireAt);
        heap := heap[idx := e];
        Fix(e.index, |heap|);
      } else {
        var at := Push(M.NearEntry(key, expireAt, 0));
        index := index[key := at];
      }
      return true, false;
    }

    method Remove(key: Str) returns (panicked: bool)
      requires Valid()
      modifies this
      ensures Valid()
      ensures match M.Remove(old(View()), key, false)
              case Done(q) => !panicked && View() == q
              case TooFar => false
              case Panicked => panicked && View() == old(View())
    {
      OperationsKeepOrder(View(), key, 0, 0, 0, false);
      if key in index {
        var idx := index[key];
        if idx >= |heap| {
          return true;
        }
        var e := RemoveAt(idx);
        index := index - {key};
      }
      return false;
    }

    method DrainExpired(cachedNow: int) returns (expired: seq<Str>)
      requires Valid()
      modifies this
      ensures Valid()
      ensures View() == M.Drain(old(View()), TruncDiv(cachedNow, NANOS_PER_MILLI), false).0
      ensures expired == KeysOf(M.Drain(old(View()), TruncDiv(cachedNow, NANOS_PER_MILLI), false).1)
    {
      var now := TruncDiv(cachedNow, NANOS_PER_MILLI);
      expired := [];
      ghost var popped: seq<NearEntry> := [];
      assert [] + M.Drain(View(), now, false).1 == M.Drain(View(), now, false).1;
      while |heap| > 0
        invariant forall k :: k in index ==> index[k] >= 0
        invariant expired == KeysOf(popped) && DrainedSoFar(old(View()), now, popped, View())
        decreases |heap|
      {
        if TruncDiv(heap[0].expireAt, NANOS_PER_MILLI) > now {
          break;
        }
        DrainRound(old(View()), now, popped, View());
        hide DrainedSoFar, M.Drain;
        var e := Pop();
        index := index - {e.key};
        popped := popped + [e];
        expired := expired + [e.key];
      }
      DrainEnds(old(View()), now, popped, View());
    }
  }
}
