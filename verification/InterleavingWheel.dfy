/** The abstract map and the wheel through every step: the map changes only where an index is
    published, in one step, and neither wheel nor near queue names a key that is not stored. */
module StoreWheel {
  import opened GoTypes
  import opened KeyOrder
  import opened SegmentIndex
  import opened BatchDelete
  import opened StoreSteps
  import opened StoreInvariant
  import opened StoreKeeps
  import opened StoreCounters
  import opened NearQueueIndex
  import opened NearQueueProofs
  import CM = CollectorModel
  import N = NearModel
  import W = WheelModel

  /** What publishing makes of the map: a batch whose entries all have size zero is passed over. */
  ghost function AfterJob(job: Job, m: map<Str, Cell>): map<Str, Cell> {
    match job
    case Put(key, cell) => m[key := cell]
    case Drop(keys) => AfterDelete(m, AsSet(keys), CellSize)
  }

  /** Seen as one map, the store changes in the Publish steps only, each the whole effect of its job. */
  lemma StoredChangesAtPublish(s: State, a: Action, hash: HashFn)
    requires Enabled(s, a, hash) && MemoryOk(s, hash) && WriterOk(s, hash)
    ensures Stored(Apply(s, a, hash), hash) == if a.Publish? then AfterJob(s.writer.value.job, Stored(s,
            hash)) else Stored(s, hash)
  {
    hide MemoryOk, WriterOk, ViewAt, MapOf, WriterEnabled, WriterStep, ReaderEnabled, ReaderStep, CollectorEnabled,
      CollectorStep;
    PtrInPublished(s, hash);
    PublishedGrows(s, a, hash);
    if a.Publish? {
      StoredPublish(s, hash);
    } else {
      PublishedUnchanged(s, a, hash, s.ptr);
      SameOk(s.mem, Apply(s, a, hash).mem, s.ptr, hash);
    }
  }

  lemma PtrInPublished(s: State, hash: HashFn)
    requires MemoryOk(s, hash)
    ensures s.ptr in s.published && IndexOkAt(s.mem, s.ptr, hash)
  {
  }

  lemma StoredPublish(s: State, hash: HashFn)
    requires Enabled(s, Publish, hash) && MemoryOk(s, hash) && WriterOk(s, hash)
    ensures Stored(Apply(s, Publish, hash), hash) == AfterJob(s.writer.value.job, Stored(s, hash))
  {
    hide WriterView, WriterKeys, MapAt, IndexOkAt, Known, AllZero, AsSet, Private;
    PublishKept(s, s.writer.value, hash);
  }

  // ---------- The collector ----------

  lemma CollectorKept(s: State, a: Action, hash: HashFn)
    requires Enabled(s, a, hash) && MemoryOk(s, hash) && WriterOk(s, hash) && CollectorInv(s, hash)
    ensures CollectorInv(Apply(s, a, hash), hash)
  {
    hide MemoryOk, WriterOk, Stored, CM.CollectorOk, NearOk, WriterEnabled, WriterStep, ReaderEnabled, ReaderStep,
      CollectorEnabled, CollectorStep, Begin, AfterJob;
    StoredChangesAtPublish(s, a, hash);
    if WriterAction(a) {
      WriterSchedules(s, s.writer.value, a, hash);
    } else if a.BeginSet? || a.BeginDelete? || a.BeginFlush? {
      BeginCounters(s, a, hash);
      SameGc(GcOf(s), Apply(s, a, hash));
    } else {
      OthersLeave(s, a, hash);
      if a.WheelTick? || a.NearTick? {
        TickShrinks(s, a);
      } else {
        SameGc(GcOf(s), Apply(s, a, hash));
      }
    }
  }

  /** What is pending has no part in the order of wheel and near queue. */
  lemma SameGc(c: CM.Collector, r: State)
    requires CM.CollectorOk(c) && r.wheel == c.wheel && r.near == c.near
    ensures CM.CollectorOk(GcOf(r)) && Scheduled(r) == c.wheel.keyIndex.Keys + c.near.index.Keys
  {
    hide W.WheelOk;
  }

  lemma TickShrinks(s: State, a: Action)
    requires (a.WheelTick? || a.NearTick?) && CollectorEnabled(s, a) && CM.CollectorOk(GcOf(s)) &&
            NearOk(s.near.heap)
    ensures CM.CollectorOk(GcOf(CollectorStep(s, a))) && Scheduled(CollectorStep(s, a)) <= Scheduled(s)
    ensures NearOk(CollectorStep(s, a).near.heap)
  {
    if a.WheelTick? {
      W.AdvanceKeepsOk(s.wheel, a.wallMs);
    } else {
      CodeSwapDrainIndex(s.near, DeadlineMs(a.cachedNow));
      DrainExact(s.near, DeadlineMs(a.cachedNow), false);
    }
    hide W.WheelOk, W.Advance, W.Expired, N.Drain, NearOk;
  }

  lemma WriterSchedules(s: State, w: Writer, a: Action, hash: HashFn)
    requires s.writer == Some(w) && WriterAction(a) && WriterEnabled(s, w, a)
    requires MemoryOk(s, hash) && WriterOk(s, hash) && CollectorInv(s, hash)
    requires Stored(WriterStep(s, w, a, hash), hash) == if a.Publish? then AfterJob(w.job, Stored(s,
            hash)) else Stored(s, hash)
    ensures CollectorInv(WriterStep(s, w, a, hash), hash)
  {
    hide MemoryOk, WriterView, WriterMemory, Stored, CM.CollectorOk, NearOk, AllZero, WriterEnabled, WriterKeys,
      WriterStep;
    match a
    case EndKey => EndKeyCancels(s, w, hash);
    case EditKeys(i) => EditKeysWheel(s, w, i, hash);
    case Publish => PublishWheel(s, w, hash);
    case Schedule(clk) => ScheduleOne(s, w, clk, hash);
    case _ => QuietSteps(s, w, a, hash);
  }

  lemma QuietSteps(s: State, w: Writer, a: Action, hash: HashFn)
    requires s.writer == Some(w) && WriterAction(a) && WriterEnabled(s, w, a) && CollectorInv(s, hash)
    requires !a.EndKey? && !a.EditKeys? && !a.Publish? && !a.Schedule?
    requires Stored(WriterStep(s, w, a, hash), hash) == Stored(s, hash)
    ensures CollectorInv(WriterStep(s, w, a, hash), hash)
  {
    hide Stored, CM.CollectorOk, NearOk, KeyEnded, JobScheduled, W.Shape, Effect, SegAt, AsSet;
    SameGc(GcOf(s), WriterStep(s, w, a, hash));
  }

  lemma EndKeyCancels(s: State, w: Writer, hash: HashFn)
    requires s.writer == Some(w) && WriterEnabled(s, w, EndKey) && CollectorInv(s, hash)
    requires Stored(WriterStep(s, w, EndKey, hash), hash) == Stored(s, hash)
    ensures CollectorInv(WriterStep(s, w, EndKey, hash), hash)
  {
    hide Stored, CM.CollectorOk, NearOk, CM.Cancel, W.Shape, DeltaChange, AsSet;
    CM.CancelClearsWheel(GcOf(s), w.group.value.left[0]);
    if w.job.Drop? {
      CM.CancelKeepsHeap(GcOf(s), w.group.value.left[0]);
    }
    SameGc(KeyEnded(s, w).value, WriterStep(s, w, EndKey, hash));
  }

  lemma ScheduleOne(s: State, w: Writer, clk: CM.Clock, hash: HashFn)
    requires s.writer == Some(w) && WriterEnabled(s, w, Schedule(clk)) && CollectorInv(s, hash)
    requires Stored(WriterStep(s, w, Schedule(clk), hash), hash) == Stored(s, hash)
    ensures CollectorInv(WriterStep(s, w, Schedule(clk), hash), hash)
  {
    hide Stored, CM.CollectorOk, NearOk, CM.Schedule, W.Shape, AsSet;
    if w.job.Put? {
      CM.ScheduleKeys(GcOf(s), w.job.key, w.job.cell.data.ttl, w.job.cell.data.createdAt, clk);
      CM.ScheduleKeepsHeap(GcOf(s), w.job.key, w.job.cell.data.ttl, w.job.cell.data.createdAt, clk);
    }
    SameGc(JobScheduled(s, w, clk).value, WriterStep(s, w, Schedule(clk), hash));
  }

  lemma PublishWheel(s: State, w: Writer, hash: HashFn)
    requires s.writer == Some(w) && WriterEnabled(s, w, Publish) && WriterOk(s, hash) && CollectorInv(s, hash)
    requires Stored(WriterStep(s, w, Publish, hash), hash) == AfterJob(w.job, Stored(s, hash))
    ensures CollectorInv(WriterStep(s, w, Publish, hash), hash)
  {
    hide Stored, CM.CollectorOk, NearOk, WriterView, WriterMemory, AllZero, AsSet;
    assert w.done == JobKeys(w.job);
  }

  /** A key passed over because it is not in the copy is not on the wheel or in the near queue's map. */
  lemma EditKeysWheel(s: State, w: Writer, i: nat, hash: HashFn)
    requires s.writer == Some(w) && WriterEnabled(s, w, EditKeys(i)) && MemoryOk(s, hash) && WriterOk(s, hash) &&
            CollectorInv(s, hash)
    requires Stored(WriterStep(s, w, EditKeys(i), hash), hash) == Stored(s, hash)
    ensures CollectorInv(WriterStep(s, w, EditKeys(i), hash), hash)
  {
    hide MemoryOk, WriterView, WriterMemory, Stored, CM.CollectorOk, NearOk, WriterKeys, Splits, SegOk, Effect;
    var g := w.group.value;
    var b := s.mem.segs[g.seg];
    if w.job.Drop? && !(i < |b.keys| && b.keys[i] == g.left[0]) {
      MissingNotScheduled(s, w, i, hash);
    }
  }

  lemma MissingNotScheduled(s: State, w: Writer, i: nat, hash: HashFn)
    requires s.writer == Some(w) && WriterEnabled(s, w, EditKeys(i)) && MemoryOk(s, hash) && WriterOk(s, hash) &&
            CollectorInv(s, hash)
    requires w.job.Drop?
    requires var g := w.group.value; var b := s.mem.segs[g.seg]; !(i < |b.keys| && b.keys[i] == g.left[0])
    ensures w.group.value.left[0] !in Scheduled(s)
  {
    hide CM.CollectorOk, MemoryOk, WriterOk, Stored, SegOk, Splits;
    MissingFromCopy(s, w, i, hash);
    assert w.group.value.done <= Cancelled(s);
  }

  lemma MissingFromCopy(s: State, w: Writer, i: nat, hash: HashFn)
    requires s.writer == Some(w) && WriterEnabled(s, w, EditKeys(i)) && MemoryOk(s, hash) && WriterOk(s, hash)
    requires w.job.Drop?
    requires var g := w.group.value; var b := s.mem.segs[g.seg]; !(i < |b.keys| && b.keys[i] == g.left[0])
    ensures var g := w.group.value; g.left[0] !in Stored(s, hash) || g.left[0] in g.done
  {
    hide MemoryOk, WriterKeys, IndexWork, ViewAt, ViewOk, MapOf, Effect, Worked, IndexOkAt, WriterMemory;
    var g := w.group.value;
    var k, b := g.left[0], s.mem.segs[g.seg];
    MemoryAt(s, w, hash);
    StoredIs(s, w, hash);
    SplitFinds(b.keys, k, i);
    MissingSegment(w.job, ViewAt(s.mem, w.base)[g.si], g.done, b, g.delta, k);
    NextInGroup(w, hash);
    StoredOfGroup(ViewAt(s.mem, w.base), hash, g.si, {k});
    assert k in Stored(s, hash) ==> k in {k} * Stored(s, hash).Keys;
  }

  lemma NextInGroup(w: Writer, hash: HashFn)
    requires WriterKeys(w, hash) && w.group.Some? && w.group.value.left != []
    ensures hash(w.group.value.left[0]) % SEGMENTS == w.group.value.si
  {
    assert w.group.value.left[0] in w.group.value.left;
  }

  lemma MissingSegment(job: Job, a: Seg<Cell>, done: set<Str>, b: Seg<Cell>, d: int, k: Str)
    requires Worked(job, a, done, b, d) && job.Drop? && k !in b.keys
    ensures SegOk(a) && (k in SegMap(a) ==> k in done)
  {
    assert k !in SegMap(b);
    assert SegMap(b) == SegMap(a) - done;
  }
}
