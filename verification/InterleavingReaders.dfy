/** Readers, single reads and the coalescer through every step of the machine. */
module StoreReaders {
  import opened GoTypes
  import opened KeyOrder
  import opened SegmentIndex
  import opened BatchDelete
  import opened StoreSteps
  import opened StoreInvariant
  import opened StoreKeeps
  import N = NearModel
  import W = WheelModel

  lemma ReadersKept(s: State, a: Action, hash: HashFn)
    requires Enabled(s, a, hash) && MemoryOk(s, hash) && WriterOk(s, hash) && ReadersOk(s, hash)
    ensures ReadersOk(Apply(s, a, hash), hash)
  {
    hide MemoryOk, WriterOk, ReaderOk, WriterEnabled, WriterStep, CollectorEnabled, CollectorStep, ReaderStep,
      ReaderEnabled;
    var r := Apply(s, a, hash);
    OnlyOneMoves(s, a, hash);
    forall id | id in r.readers
      ensures r.readers[id].idx in r.published && ReaderOk(r.mem, r.readers[id], hash)
    {
      if ReaderAction(a) && id == a.r {
        OthersLeave(s, a, hash);
        ReaderMoves(s, a, hash);
      } else {
        PublishedUnchanged(s, a, hash, s.readers[id].idx);
        ReaderFrame(s.mem, r.mem, s.readers[id], hash);
      }
    }
  }

  lemma ReaderFrame(m: Memory, n: Memory, r: Reader, hash: HashFn)
    requires ReaderOk(m, r, hash) && Same(m, n, r.idx)
    ensures ReaderOk(n, r, hash)
  {
    SameOk(m, n, r.idx, hash);
    hide ViewOk, MapOf;
  }

  lemma OnlyOneMoves(s: State, a: Action, hash: HashFn)
    requires Enabled(s, a, hash)
    ensures var r := Apply(s, a, hash);
            forall id :: id in r.readers && !(ReaderAction(a) && id == a.r) ==>
              id in s.readers && r.readers[id] == s.readers[id]
  {
    hide WriterEnabled, WriterStep, SegAt, SlotOf, Stored, Less, Begin, N.Drain, W.Advance, W.Shape;
    if WriterAction(a) {
      WriterNotTouches(s, s.writer.value, a, hash);
    } else if a.BeginSet? || a.BeginDelete? || a.BeginFlush? {
      BeginNotTouches(s, a, hash);
    }
  }

  lemma ReaderMoves(s: State, a: Action, hash: HashFn)
    requires ReaderAction(a) && ReaderEnabled(s, a) && MemoryOk(s, hash) && ReadersOk(s, hash)
    ensures var r := ReaderStep(s, a, hash);
            a.r in r.readers && r.readers[a.r].idx in s.published && ReaderOk(s.mem, r.readers[a.r], hash)
  {
    hide ReaderOk, ReaderStep, MemoryOk, Known, StepTouch;
    if a.Load? || a.LoadKeys? {
      LoadOk(s, a, hash);
    } else {
      assert ReaderOk(s.mem, s.readers[a.r], hash);
      if a.Look? || a.Touch? || a.RequestDelete? {
        AnswerMoves(s, a, hash);
      } else {
        SearchMoves(s, a, hash);
      }
    }
  }

  lemma SearchMoves(s: State, a: Action, hash: HashFn)
    requires (a.LoadAgain? || a.Probe? || a.EndSearch? || a.ListSegment?) && ReaderEnabled(s, a)
    requires MemoryOk(s, hash) && ReaderOk(s.mem, s.readers[a.r], hash)
    ensures var r := ReaderStep(s, a, hash);
            a.r in r.readers && r.readers[a.r].idx == s.readers[a.r].idx && ReaderOk(s.mem, r.readers[a.r], hash)
  {
    hide ViewAt, ViewOk, MapOf, SegAt, SlotOf, Less, SearchOk, Known, KeyList, MemoryOk, IndexOkAt, MapAt;
    var r := s.readers[a.r];
    match a
    case LoadAgain(_) => LoadAgainOk(s, r, hash);
    case Probe(_) => ProbeOk(s, r, hash);
    case EndSearch(_) => EndSearchOk(s, r, hash);
    case ListSegment(_) => ListSegmentOk(s, r, hash);
  }

  lemma AnswerMoves(s: State, a: Action, hash: HashFn)
    requires (a.Look? || a.Touch? || a.RequestDelete?) && ReaderEnabled(s, a)
    requires ReaderOk(s.mem, s.readers[a.r], hash)
    ensures var r := ReaderStep(s, a, hash);
            a.r in r.readers && r.readers[a.r].idx == s.readers[a.r].idx && ReaderOk(s.mem, r.readers[a.r], hash)
  {
    hide ViewAt, ViewOk, MapOf, KeyList, SearchOk, IndexOkAt, MapAt, StepTouch;
    if a.Touch? {
      TouchOk(s, a.r, a.cachedNow, hash);
    }
  }

  lemma LoadOk(s: State, a: Action, hash: HashFn)
    requires (a.Load? || a.LoadKeys?) && ReaderEnabled(s, a) && MemoryOk(s, hash)
    ensures var r := ReaderStep(s, a, hash);
            a.r in r.readers && r.readers[a.r].idx in s.published && ReaderOk(s.mem, r.readers[a.r], hash)
  {
    hide ViewAt, ViewOk, MapOf, SegAt, SlotOf, Less, SearchOk, Known;
    assert IndexOkAt(s.mem, s.ptr, hash);
    NothingListed(ViewAt(s.mem, s.ptr));
  }

  lemma TouchOk(s: State, id: nat, cachedNow: int, hash: HashFn)
    requires id in s.readers && s.readers[id].phase.Live? && ReaderOk(s.mem, s.readers[id], hash)
    ensures var r := StepTouch(s, id, cachedNow);
            id in r.readers && r.readers[id].idx == s.readers[id].idx && ReaderOk(s.mem, r.readers[id], hash)
  {
    hide ViewAt, ViewOk, MapOf, KeyList, SearchOk, IndexOkAt, MapAt, AccessCount;
  }

  /** The second load of the pointer may see a newer index, but it yields the same segment number. */
  lemma LoadAgainOk(s: State, r: Reader, hash: HashFn)
    requires MemoryOk(s, hash) && IndexOkAt(s.mem, r.idx, hash)
    ensures var si := SlotOf(s.mem, s.ptr, hash, r.key);
            si == hash(r.key) % SEGMENTS && SegAt(s.mem, r.idx, si) == ViewAt(s.mem, r.idx)[si] &&
            SearchOk(ViewAt(s.mem, r.idx)[si].keys, r.key, 0, |SegAt(s.mem, r.idx, si).keys|)
  {
    assert IndexOkAt(s.mem, s.ptr, hash);
    hide ViewOk, MapOf;
    ViewIs(s.mem, r.idx, hash(r.key) % SEGMENTS);
  }

  lemma SegmentSorted(v: seq<Seg<Cell>>, hash: HashFn, si: nat)
    requires ViewOk(v, hash) && si < SEGMENTS
    ensures SegOk(v[si]) && StrictlySorted(v[si].keys)
  {
  }

  lemma ProbeOk(s: State, r: Reader, hash: HashFn)
    requires r.phase.Searching? && r.phase.lo < r.phase.hi && ReaderOk(s.mem, r, hash)
    ensures var h := ProbeAt(s, r); var seg := SegAt(s.mem, r.idx, r.phase.si);
            h < |seg.keys| && h == (r.phase.lo + r.phase.hi) / 2 && r.phase.si < SEGMENTS &&
              seg == ViewAt(s.mem, r.idx)[r.phase.si] &&
            (Less(seg.keys[h], r.key) ==> SearchOk(seg.keys, r.key, h + 1, r.phase.hi)) &&
            (!Less(seg.keys[h], r.key) ==> SearchOk(seg.keys, r.key, r.phase.lo, h))
  {
    ViewIs(s.mem, r.idx, r.phase.si);
    var seg := SegAt(s.mem, r.idx, r.phase.si);
    SegmentSorted(ViewAt(s.mem, r.idx), hash, r.phase.si);
    hide ViewAt, ViewOk, MapOf, SegAt, Less, Known, StrictlySorted;
    ProbeNarrows(seg.keys, r.key, r.phase.lo, r.phase.hi);
  }

  lemma EndSearchOk(s: State, r: Reader, hash: HashFn)
    requires r.phase.Searching? && r.phase.lo >= r.phase.hi && ReaderOk(s.mem, r, hash)
    ensures var seg := SegAt(s.mem, r.idx, r.phase.si); var i := r.phase.lo;
            (i < |seg.keys| && seg.keys[i] == r.key <==> r.key in r.seen) &&
            (r.key in r.seen ==> 0 <= i < |seg.vals| && r.seen[r.key] == seg.vals[i])
  {
    ViewIs(s.mem, r.idx, r.phase.si);
    LookupInContents(ViewAt(s.mem, r.idx), hash, r.key, r.phase.lo);
    hide ViewAt, IndexOk, SegAt, Less, Known, SegmentIndex.Contents;
  }

  lemma NothingListed(v: seq<Seg<Cell>>)
    ensures KeyList(v[..0]) == []
  {
  }

  /** One more segment listed, or all of them: what is listed then are the keys seen at the load. */
  lemma ListSegmentOk(s: State, r: Reader, hash: HashFn)
    requires r.phase.Listing? && ReaderOk(s.mem, r, hash)
    ensures r.idx in s.mem.indexes && |s.mem.indexes[r.idx]| == SEGMENTS
    ensures var v := ViewAt(s.mem, r.idx);
            if r.phase.i < SEGMENTS then
              r.phase.keys + SegAt(s.mem, r.idx, r.phase.i).keys == KeyList(v[..r.phase.i + 1])
            else multiset(r.phase.keys) == multiset(r.seen.Keys)
  {
    hide SegmentIndex.Contents, IndexOk;
    var v := ViewAt(s.mem, r.idx);
    var i := r.phase.i;
    if i < SEGMENTS {
      ViewIs(s.mem, r.idx, i);
      assert v[..i + 1][..i] == v[..i];
    } else {
      assert v[..i] == v;
      KeyListExact(v, hash);
    }
  }

  // ---------- Single reads ----------

  lemma ServedKept(s: State, a: Action, hash: HashFn)
    requires Enabled(s, a, hash) && ServedOk(s)
    ensures ServedOk(Apply(s, a, hash))
  {
    hide WriterEnabled, WriterStep, CollectorEnabled, CollectorStep, Stored, SegAt, SlotOf, Less, Begin;
    if WriterAction(a) {
      WriterNotTouches(s, s.writer.value, a, hash);
    } else if a.BeginSet? || a.BeginDelete? || a.BeginFlush? {
      BeginNotTouches(s, a, hash);
    } else if !ReaderAction(a) {
      CollectorNotTouches(s, a);
    }
    var r := Apply(s, a, hash);
    forall c: Cell | c.data.singleRead
      ensures r.served[c] == AccessCount(r, c) <= 1
    {
      assert s.served[c] == AccessCount(s, c) <= 1;
    }
  }

  lemma WriterNotTouches(s: State, w: Writer, a: Action, hash: HashFn)
    requires WriterAction(a) && WriterEnabled(s, w, a)
    ensures var r := WriterStep(s, w, a, hash);
            r.readers == s.readers && r.touched == s.touched && r.served == s.served &&
            r.pending == s.pending && r.inFlight == s.inFlight && r.enqueued == s.enqueued && r.handed == s.handed
  {
    hide KeyEnded, JobScheduled, W.Shape, SegOk, Splits, Effect, SegAt;
  }

  lemma BeginNotTouches(s: State, a: Action, hash: HashFn)
    requires (a.BeginSet? || a.BeginDelete? || a.BeginFlush?) && BeginEnabled(s, a)
    ensures var r := Begin(s, a, hash); r.readers == s.readers && r.touched == s.touched && r.served == s.served
    ensures var r := Begin(s, a, hash);
            r.pending == s.pending && r.enqueued == s.enqueued &&
            (if a.BeginFlush? then r.inFlight == None && r.handed == s.handed + InFlight(s)
             else r.inFlight == s.inFlight && r.handed == s.handed)
  {
  }

  lemma CollectorNotTouches(s: State, a: Action)
    requires CollectorEnabled(s, a)
    ensures CollectorStep(s, a).touched == s.touched && CollectorStep(s, a).served == s.served
  {
    hide N.Drain, W.Advance, W.Expired;
  }

  function AnswerOf(r: Reader): Option<Cell> {
    match r.phase
    case Doomed(_, answer) => answer
    case Done(_, answer) => answer
    case _ => None
  }

  ghost predicate Holds(s: State, id: nat, c: Cell) {
    id in s.readers && AnswerOf(s.readers[id]) == Some(c)
  }

  /** No two readers hold the same single-read entry, and one that holds it was counted. */
  ghost predicate AnswersOk(s: State) {
    && (forall id, c :: Holds(s, id, c) ==> s.served[c] > 0)
    && (forall i, j, c :: Holds(s, i, c) && Holds(s, j, c) && c.data.singleRead ==> i == j)
  }

  lemma AnswersKept(s: State, a: Action, hash: HashFn)
    requires Enabled(s, a, hash) && ServedOk(s) && AnswersOk(s)
    ensures AnswersOk(Apply(s, a, hash))
  {
    hide Enabled, Apply, ServedOk, Holds;
    var r := Apply(s, a, hash);
    ServedGrows(s, a, hash);
    forall id, c | Holds(r, id, c)
      ensures r.served[c] > 0
    {
      HolderWas(s, a, hash, id, c);
    }
    forall i, j, c | Holds(r, i, c) && Holds(r, j, c) && c.data.singleRead
      ensures i == j
    {
      HolderWas(s, a, hash, i, c);
      HolderWas(s, a, hash, j, c);
    }
  }

  /** Who holds an entry held it before, or is the one reader that moved and got it. */
  lemma HolderWas(s: State, a: Action, hash: HashFn, id: nat, c: Cell)
    requires Enabled(s, a, hash) && ServedOk(s) && Holds(Apply(s, a, hash), id, c)
    ensures Holds(s, id, c) ||
            (ReaderAction(a) && id == a.r && Apply(s, a, hash).served[c] > 0 &&
              (c.data.singleRead ==> s.served[c] == 0))
  {
    hide WriterEnabled, WriterStep, CollectorEnabled, CollectorStep, Begin, ReaderEnabled, ReaderStep, ServedOk;
    OnlyOneMoves(s, a, hash);
    if ReaderAction(a) && id == a.r {
      MoverAnswer(s, a, hash);
    }
  }

  lemma ServedGrows(s: State, a: Action, hash: HashFn)
    requires Enabled(s, a, hash)
    ensures forall c :: Apply(s, a, hash).served[c] >= s.served[c]
  {
    hide WriterEnabled, WriterStep, Stored, SegAt, SlotOf, Less, Begin;
    if WriterAction(a) {
      WriterNotTouches(s, s.writer.value, a, hash);
    } else if a.BeginSet? || a.BeginDelete? || a.BeginFlush? {
      BeginNotTouches(s, a, hash);
    }
  }

  /** A reader comes to hold a single-read entry only when no one was ever counted for it. */
  lemma MoverAnswer(s: State, a: Action, hash: HashFn)
    requires ReaderAction(a) && ReaderEnabled(s, a) && ServedOk(s)
    ensures var r := ReaderStep(s, a, hash);
            forall c :: Holds(r, a.r, c) && !Holds(s, a.r, c) ==>
              r.served[c] > 0 && (c.data.singleRead ==> s.served[c] == 0)
  {
    hide Stored, SegAt, SlotOf, Less, StepTouch, ServedOk;
    if a.Touch? {
      TouchAnswers(s, a.r, a.cachedNow);
    }
  }

  lemma TouchAnswers(s: State, id: nat, cachedNow: int)
    requires id in s.readers && s.readers[id].phase.Live? && ServedOk(s)
    ensures var r := StepTouch(s, id, cachedNow);
            forall c :: Holds(r, id, c) ==> r.served[c] > 0 && (c.data.singleRead ==> s.served[c] == 0)
  {
    hide AccessCount;
  }

  // ---------- The coalescer ----------

  lemma CollectorCoalesces(s: State, a: Action)
    requires CollectorEnabled(s, a) && CoalescerOk(s)
    ensures CoalescerOk(CollectorStep(s, a))
  {
    hide NoDuplicates, N.Drain, W.Shape, W.Advance;
    assert AsSet([]) == {};
  }

  lemma CoalescerKept(s: State, a: Action, hash: HashFn)
    requires Enabled(s, a, hash) && CoalescerOk(s)
    ensures CoalescerOk(Apply(s, a, hash))
  {
    hide WriterEnabled, WriterStep, CollectorEnabled, CollectorStep, Stored, SegAt, SlotOf, Less, Begin, NoDuplicates;
    if WriterAction(a) {
      WriterNotTouches(s, s.writer.value, a, hash);
    } else if a.BeginSet? || a.BeginDelete? || a.BeginFlush? {
      BeginNotTouches(s, a, hash);
    } else if !ReaderAction(a) {
      CollectorCoalesces(s, a);
    }
  }
}
