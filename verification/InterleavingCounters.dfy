/** The counters and the wheel through every step of the machine. */
module StoreCounters {
  import opened GoTypes
  import opened KeyOrder
  import opened SegmentIndex
  import opened BatchDelete
  import opened StoreSteps
  import opened StoreInvariant
  import opened StoreKeeps
  import CM = CollectorModel
  import W = WheelModel

  lemma PtrSame(s: State, a: Action, hash: HashFn)
    requires Enabled(s, a, hash) && MemoryOk(s, hash) && WriterOk(s, hash)
    ensures var r := Apply(s, a, hash);
            ViewAt(r.mem, s.ptr) == ViewAt(s.mem, s.ptr) && IndexOkAt(s.mem, s.ptr, hash) &&
              IndexOkAt(r.mem, s.ptr, hash)
  {
    PublishedUnchanged(s, a, hash, s.ptr);
    SameOk(s.mem, Apply(s, a, hash).mem, s.ptr, hash);
  }

  // ---------- keyCount ----------

  lemma CountKept(s: State, a: Action, hash: HashFn)
    requires Enabled(s, a, hash) && MemoryOk(s, hash) && WriterOk(s, hash) && CountOk(s, hash)
    ensures CountOk(Apply(s, a, hash), hash)
  {
    hide MemoryOk, WriterOk, ViewAt, KeyTotal, WriterEnabled, WriterStep, ReaderEnabled, CollectorEnabled, CountedOk,
      Begin, ReaderStep, CollectorStep, IndexOkAt;
    if WriterAction(a) {
      WriterCount(s, a, hash);
    } else if a.BeginSet? || a.BeginDelete? || a.BeginFlush? {
      PtrSame(s, a, hash);
      BeginOk(s, a, hash);
      BeginCounters(s, a, hash);
    } else {
      OthersLeave(s, a, hash);
    }
  }

  lemma BeginCounters(s: State, a: Action, hash: HashFn)
    requires (a.BeginSet? || a.BeginDelete? || a.BeginFlush?) && BeginEnabled(s, a)
    ensures var r := Begin(s, a, hash);
            r.keyCount == s.keyCount && r.usedBytes == s.usedBytes && r.excess == s.excess && r.ptr == s.ptr &&
            r.wheel == s.wheel && r.near == s.near && r.writer.Some? &&
            r.writer.value.stage.Building? && r.writer.value.done == {} &&
            r.writer.value.group.None?
  {
  }

  lemma WriterCount(s: State, a: Action, hash: HashFn)
    requires Enabled(s, a, hash) && WriterAction(a) && MemoryOk(s, hash) && WriterOk(s, hash) && CountOk(s, hash)
    ensures CountOk(Apply(s, a, hash), hash)
  {
    hide MemoryOk, WriterView, ViewAt, KeyTotal, WriterKeys, WriterMemory, CountedOk, IndexOkAt, SegOk, Splits, Effect,
      KeyEnded, JobScheduled, W.Shape, SegAt, WriterEnabled;
    var w := s.writer.value;
    PtrSame(s, a, hash);
    if a.Publish? {
      PublishCount(s, w, hash);
    } else if a.CancelPanics? {
      PanicCount(s, w, hash);
    } else if w.stage.Building? {
      BuildingCount(s, w, a, hash);
    } else {
      LateCount(s, w, a, hash);
    }
  }

  lemma LateCount(s: State, w: Writer, a: Action, hash: HashFn)
    requires WriterAction(a) && WriterEnabled(s, w, a) && !w.stage.Building?
    ensures var r := WriterStep(s, w, a, hash);
            r.keyCount == s.keyCount && r.excess == s.excess && r.ptr == s.ptr && r.mem == s.mem &&
            (r.writer.Some? ==> !r.writer.value.stage.Building?)
  {
    hide KeyEnded, JobScheduled, W.Shape;
  }

  /** Published, the index counts what the writer counted; passed over, that becomes an excess. */
  lemma PublishCount(s: State, w: Writer, hash: HashFn)
    requires s.writer == Some(w) && WriterEnabled(s, w, Publish) && MemoryOk(s, hash) && WriterOk(s, hash) &&
            CountOk(s, hash)
    ensures CountOk(WriterStep(s, w, Publish, hash), hash)
  {
    hide WriterView, ViewAt, KeyTotal, WriterKeys, IndexOkAt;
    assert IndexOkAt(s.mem, w.base, hash);
    PublishKept(s, w, hash);
  }

  /** A Cancel that panics leaves an excess of all keys of the batch counted so far, its own included. */
  lemma PanicCount(s: State, w: Writer, hash: HashFn)
    requires s.writer == Some(w) && WriterEnabled(s, w, CancelPanics)
    requires MemoryOk(s, hash) && WriterOk(s, hash) && CountOk(s, hash)
    ensures CountOk(WriterStep(s, w, CancelPanics, hash), hash)
    ensures w.counted == -|CountedKeys(s, hash)| && w.group.value.left[0] in CountedKeys(s, hash)
  {
    hide ViewAt, KeyTotal, WriterKeys, WriterView, IndexOkAt, CM.Cancel, W.Shape, CountedOk, CountedKeys;
    CountedExact(s, w, hash);
  }

  lemma CountedExact(s: State, w: Writer, hash: HashFn)
    requires s.writer == Some(w) && AtEdit(s, w, Counted) && w.job.Drop?
    requires MemoryOk(s, hash) && WriterMemory(s, w) && WriterKeys(w, hash) && WriterView(s, w, hash) &&
            CountedOk(s.mem, w)
    ensures w.counted == -|CountedKeys(s, hash)| && w.group.value.left[0] in CountedKeys(s, hash)
  {
    hide ViewAt, KeyTotal, WriterKeys, IndexOkAt, MapAt, Private, Known;
    MemoryAt(s, w, hash);
    BatchKeys(w, hash);
    StoredIs(s, w, hash);
    var g := w.group.value;
    CountedWork(ViewAt(s.mem, w.base), ViewAt(s.mem, w.index), w, g.edit.before, g.edit.i, hash);
  }

  lemma StoredIs(s: State, w: Writer, hash: HashFn)
    requires WriterMemory(s, w) && w.stage.Building? && IndexOkAt(s.mem, w.base, hash)
    ensures Stored(s, hash) == MapOf(ViewAt(s.mem, w.base), hash) && ViewOk(ViewAt(s.mem, w.base), hash)
  {
    hide ViewAt, ViewOk, MapOf;
  }

  lemma BatchKeys(w: Writer, hash: HashFn)
    requires WriterKeys(w, hash) && w.group.Some? && w.group.value.left != []
    ensures var g := w.group.value;
            g.si in w.todo && forall k :: k in g.done + {g.left[0]} ==> hash(k) % SEGMENTS == g.si
  {
    assert w.group.value.left[0] in w.group.value.left;
  }

  /** The same on values: v is the published index, u the new one, b the copy before its present edit. */
  lemma CountedWork(v: seq<Seg<Cell>>, u: seq<Seg<Cell>>, w: Writer, b: Seg<Cell>, i: nat, hash: HashFn)
    requires IndexWork(v, u, w, hash) && w.job.Drop? && w.group.Some? && w.group.value.left != []
    requires var g := w.group.value;
             g.si in w.todo && (forall k :: k in g.done + {g.left[0]} ==> hash(k) % SEGMENTS == g.si) &&
             g.si < SEGMENTS == |v| && Worked(w.job, v[g.si], g.done, b, g.delta) &&
             i < |b.keys| && b.keys[i] == g.left[0]
    ensures var g := w.group.value;
            var counted := (w.done + g.done + {g.left[0]}) * MapOf(v, hash).Keys;
            ViewOk(v, hash) && g.left[0] in counted &&
            |counted| == KeyTotal(v) - KeyTotal(u) + |v[g.si].keys| - |b.keys| + 1
  {
    hide KeyTotal, BytesOf, ViewOk, SegMap, MapOf, AllZero, Shrunk, SegOk, IndexWork, Progress, Worked;
    var g := w.group.value;
    var now := g.done + {g.left[0]};
    BatchWork(v, u, w, b, hash);
    ProgressDone(v, u, hash, w.done, w.delta, CellSize);
    ShrunkHad(v[g.si], g.done, b, -g.delta, i);
    ShrunkCount(v[g.si], g.done, b, -g.delta, i, CellSize);
    StoredOfGroup(v, hash, g.si, now);
    StoredApart(v, u, w, now, hash);
    TwoParts(w.done, now, MapOf(v, hash).Keys);
    assert w.done + g.done + {g.left[0]} == w.done + now;
    assert g.left[0] in now * SegMap(v[g.si]).Keys;
  }

  lemma BatchWork(v: seq<Seg<Cell>>, u: seq<Seg<Cell>>, w: Writer, b: Seg<Cell>, hash: HashFn)
    requires IndexWork(v, u, w, hash) && w.job.Drop? && w.group.Some? && w.group.value.si in w.todo
    requires w.group.value.si < SEGMENTS == |v| && Worked(w.job, v[w.group.value.si], w.group.value.done, b,
               w.group.value.delta)
    ensures Progress(v, u, hash, w.done, w.delta, CellSize) && |u| == SEGMENTS
    ensures u[w.group.value.si] == v[w.group.value.si]
    ensures Shrunk(v[w.group.value.si], w.group.value.done, b, -w.group.value.delta, CellSize)
  {
    hide Progress, Shrunk, ViewOk, BytesOf, SegOk, SumSizes;
  }

  lemma ShrunkHad(a: Seg<Cell>, done: set<Str>, b: Seg<Cell>, lost: int, i: nat)
    requires Shrunk(a, done, b, lost, CellSize) && i < |b.keys|
    ensures SegOk(a) && b.keys[i] in SegMap(a)
  {
    SegMapAt(b, i);
  }

  /** What is done is gone from the new index, what is to do is still there. */
  lemma StoredApart(v: seq<Seg<Cell>>, u: seq<Seg<Cell>>, w: Writer, now: set<Str>, hash: HashFn)
    requires IndexWork(v, u, w, hash) && w.job.Drop? && w.group.Some? && w.group.value.si in w.todo
    requires forall k :: k in now ==> hash(k) % SEGMENTS == w.group.value.si
    ensures ViewOk(v, hash) && (w.done * MapOf(v, hash).Keys) !! (now * MapOf(v, hash).Keys)
  {
    forall k | k in w.done && k in now
      ensures k !in MapOf(v, hash)
    {
      ContentsAt(v, hash, k);
      ContentsAt(u, hash, k);
      assert k !in MapOf(u, hash);
    }
  }

  lemma TwoParts(a: set<Str>, b: set<Str>, stored: set<Str>)
    requires (a * stored) !! (b * stored)
    ensures |(a + b) * stored| == |a * stored| + |b * stored|
  {
    assert (a + b) * stored == a * stored + b * stored;
    ApartCount(a * stored, b * stored);
  }

  lemma BuildingCount(s: State, w: Writer, a: Action, hash: HashFn)
    requires WriterAction(a) && WriterEnabled(s, w, a) && w.stage.Building? && !a.Publish? && !a.CancelPanics?
    requires MemoryOk(s, hash) && WriterMemory(s, w) && WriterKeys(w, hash) && WriterView(s, w, hash) &&
            CountedOk(s.mem, w)
    ensures var r := WriterStep(s, w, a, hash);
            r.writer.Some? && r.writer.value.stage.Building? && CountedOk(r.mem, r.writer.value) &&
            r.keyCount - s.keyCount == r.writer.value.counted - w.counted && r.excess == s.excess && r.ptr == s.ptr
  {
    hide ViewAt, KeyTotal, WriterKeys, IndexOkAt, SegOk, Splits, Effect, KeyEnded, JobScheduled, W.Shape, IndexWork,
      GroupWork, Private;
    MemoryAt(s, w, hash);
    var r := WriterStep(s, w, a, hash);
    WriterLeavesAlone(s, w, a, hash, w.base);
    SameViews(s.mem, r.mem, w.base);
    if a.Install? {
      InstallFacts(s, w, hash);
      InstallKept(s, w, hash);
    } else {
      OwnUnchanged(s, w, a, hash);
      SameViews(s.mem, r.mem, w.index);
      GroupCounted(s, w, a, hash);
    }
  }

  lemma GroupCounted(s: State, w: Writer, a: Action, hash: HashFn)
    requires WriterAction(a) && WriterEnabled(s, w, a) && w.stage.Building? && !a.Publish? && !a.Install?
    requires !a.CancelPanics?
    requires WriterView(s, w, hash) && WriterKeys(w, hash) && Known(s.mem, w.base)
    ensures var r := WriterStep(s, w, a, hash);
            r.writer.Some? && r.writer.value.group.Some? &&
            var g := r.writer.value.group.value;
            g.si < SEGMENTS && (w.group.Some? ==> g.si == w.group.value.si) &&
            GroupCount(r.mem, w.job, g) - (if w.group.Some? then GroupCount(s.mem, w.job, w.group.value)
                                           else |ViewAt(s.mem, w.base)[g.si].keys|)
            == r.writer.value.counted - w.counted
  {
    hide IndexWork, Worked, Splits, SegOk, Effect, KeyEnded, DeltaChange;
    match a
    case CopySegment(si, seg) =>
      TodoBounds(s, w, hash);
      ViewIs(s.mem, w.base, si);
    case EndKey => EndKept(s.mem, w.job, w.group.value, ViewAt(s.mem, w.base)[w.group.value.si]);
    case _ =>
  }

  lemma InstallFacts(s: State, w: Writer, hash: HashFn)
    requires WriterMemory(s, w) && WriterView(s, w, hash) && w.stage.Building? && w.group.Some?
    ensures w.group.value.si < SEGMENTS && w.group.value.seg in s.mem.segs
  {
    hide IndexWork, GroupWork, ViewAt;
  }

  lemma TodoBounds(s: State, w: Writer, hash: HashFn)
    requires WriterView(s, w, hash) && w.stage.Building?
    ensures forall si :: si in w.todo ==> si < SEGMENTS
  {
  }

  // ---------- usedBytes ----------

  lemma BytesKept(s: State, a: Action, hash: HashFn)
    requires Enabled(s, a, hash) && MemoryOk(s, hash) && WriterOk(s, hash) && BytesOk(s, hash)
    ensures MemoryOk(Apply(s, a, hash), hash) && BytesOk(Apply(s, a, hash), hash)
  {
    MemoryKept(s, a, hash);
    hide MemoryOk, WriterView, ViewAt, BytesOf, WriterKeys, IndexOkAt, WriterEnabled, WriterStep, ReaderEnabled,
      CollectorEnabled, ReaderStep, CollectorStep, Begin, WriterMemory;
    PtrSame(s, a, hash);
    if WriterAction(a) {
      WriterBytes(s, s.writer.value, a, hash);
    } else if a.BeginSet? || a.BeginDelete? || a.BeginFlush? {
      BeginCounters(s, a, hash);
    } else {
      OthersLeave(s, a, hash);
    }
  }

  lemma WriterBytes(s: State, w: Writer, a: Action, hash: HashFn)
    requires s.writer == Some(w) && WriterAction(a) && WriterEnabled(s, w, a)
    requires MemoryOk(s, hash) && WriterOk(s, hash) && BytesOk(s, hash)
    requires MemoryOk(WriterStep(s, w, a, hash), hash)
    requires ViewAt(WriterStep(s, w, a, hash).mem, s.ptr) == ViewAt(s.mem, s.ptr)
    ensures BytesOk(WriterStep(s, w, a, hash), hash)
  {
    hide WriterKeys, ViewAt, BytesOf, WriterEnabled, WriterView, MemoryOk, WriterStep, IndexOkAt, WriterMemory;
    if a.Publish? {
      PublishBytes(s, w, hash);
    } else if a.Account? {
      AccountBytes(s, w, hash);
    } else {
      OtherBytes(s, w, a, hash);
    }
  }

  lemma PublishBytes(s: State, w: Writer, hash: HashFn)
    requires s.writer == Some(w) && WriterEnabled(s, w, Publish)
    requires MemoryOk(s, hash) && WriterOk(s, hash) && BytesOk(s, hash)
    requires MemoryOk(WriterStep(s, w, Publish, hash), hash)
    ensures BytesOk(WriterStep(s, w, Publish, hash), hash)
  {
    hide WriterKeys, ViewAt, BytesOf, IndexOkAt, IndexWork, GroupWork, Known;
    MemoryAt(s, w, hash);
    PublishKept(s, w, hash);
  }

  lemma AccountBytes(s: State, w: Writer, hash: HashFn)
    requires s.writer == Some(w) && WriterEnabled(s, w, Account) && MemoryOk(s, hash) && BytesOk(s, hash)
    requires MemoryOk(WriterStep(s, w, Account, hash), hash)
    ensures BytesOk(WriterStep(s, w, Account, hash), hash)
  {
    hide ViewAt, BytesOf, IndexOkAt;
  }

  lemma OtherBytes(s: State, w: Writer, a: Action, hash: HashFn)
    requires s.writer == Some(w) && WriterAction(a) && WriterEnabled(s, w, a) && !a.Publish? && !a.Account?
    requires MemoryOk(s, hash) && BytesOk(s, hash) && MemoryOk(WriterStep(s, w, a, hash), hash)
    requires ViewAt(WriterStep(s, w, a, hash).mem, s.ptr) == ViewAt(s.mem, s.ptr)
    ensures BytesOk(WriterStep(s, w, a, hash), hash)
  {
    hide MemoryOk, ViewAt, BytesOf, IndexOkAt, SegOk, Splits, Effect, KeyEnded, JobScheduled, W.Shape, SegAt;
  }
}
