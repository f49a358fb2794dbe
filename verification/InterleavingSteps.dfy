/** Every step of the machine keeps the invariant. */
module StoreKeeps {
  import opened GoTypes
  import opened KeyOrder
  import opened SegmentIndex
  import opened BatchDelete
  import opened StoreSteps
  import opened StoreInvariant
  import N = NearModel
  import W = WheelModel

  // ---------- Values: one key, one segment ----------

  lemma WorkedNone(job: Job, a: Seg<Cell>)
    requires SegOk(a)
    ensures Worked(job, a, {}, a, 0)
  {
    ShrunkNone(a, CellSize);
  }

  lemma WorkedMissing(job: Job, a: Seg<Cell>, done: set<Str>, b: Seg<Cell>, d: int, k: Str)
    requires Worked(job, a, done, b, d) && job.Drop? && k !in b.keys
    ensures Worked(job, a, done + {k}, b, d)
  {
    ShrunkMissing(a, done, b, -d, k, CellSize);
  }

  lemma WorkedDrop(job: Job, a: Seg<Cell>, done: set<Str>, b: Seg<Cell>, d: int, i: nat)
    requires Worked(job, a, done, b, d) && job.Drop? && i < |b.keys|
    ensures Worked(job, a, done + {b.keys[i]}, SegDelete(b, i), d - CellSize(b.keys[i], b.vals[i]))
  {
    ShrunkFound(a, done, b, -d, i, CellSize);
  }

  lemma WorkedPut(job: Job, a: Seg<Cell>, i: nat)
    requires SegOk(a) && job.Put? && Splits(a.keys, job.key, i)
    ensures var found := i < |a.keys| && a.keys[i] == job.key;
            Worked(job, a, {job.key}, SegPut(a, i, job.key, job.cell), DeltaChange(job, job.key, a, i, found)) &&
            |SegPut(a, i, job.key, job.cell).keys| == |a.keys| + CountChange(job, found)
  {
    SplitFinds(a.keys, job.key, i);
    SegPutExact(a, i, job.key, job.cell, CellSize);
  }

  // ---------- Values: the whole index ----------

  lemma BuiltNone(job: Job, v: seq<Seg<Cell>>, hash: HashFn)
    requires ViewOk(v, hash)
    ensures Built(job, v, v, hash, {}, 0)
  {
    NoneDeleted(v, hash, CellSize);
  }

  lemma BuiltInstall(job: Job, v: seq<Seg<Cell>>, w: seq<Seg<Cell>>, hash: HashFn, done: set<Str>, delta: int,
                     si: nat, gone: set<Str>, b: Seg<Cell>, d: int)
    requires Built(job, v, w, hash, done, delta) && si < SEGMENTS && w[si] == v[si]
    requires forall k :: k in gone ==> hash(k) % SEGMENTS == si
    requires Worked(job, v[si], gone, b, d)
    requires job.Put? ==> done == {} && gone == {job.key}
    ensures Built(job, v, w[si := b], hash, done + gone, delta + d)
    ensures KeyTotal(w[si := b]) == KeyTotal(w) - |v[si].keys| + |b.keys|
  {
    TotalsUpdate(w, si, b, CellSize);
    match job
    case Put(key, cell) => InstallPut(v, hash, si, key, cell, b);
    case Drop(_) =>
      GroupProgress(v, w, hash, done, delta, si, gone, b, -d, CellSize);
      InstallDrop(v, w, hash, done + gone, si, b, delta + d);
  }

  lemma InstallDrop(v: seq<Seg<Cell>>, w: seq<Seg<Cell>>, hash: HashFn, done: set<Str>, si: nat, b: Seg<Cell>,
      delta: int)
    requires |w| == SEGMENTS && si < SEGMENTS && Progress(v, w[si := b], hash, done, delta, CellSize)
    ensures ViewOk(w[si := b], hash) && |w[si := b]| == SEGMENTS
    ensures delta == BytesOf(w[si := b], hash, CellSize) - BytesOf(v, hash, CellSize)
  {
  }

  lemma InstallPut(v: seq<Seg<Cell>>, hash: HashFn, si: nat, key: Str, cell: Cell, b: Seg<Cell>)
    requires ViewOk(v, hash) && si < SEGMENTS && SegOk(b) && hash(key) % SEGMENTS == si
    requires SegMap(b) == SegMap(v[si])[key := cell]
    ensures ViewOk(v[si := b], hash) && MapOf(v[si := b], hash) == MapOf(v, hash)[key := cell]
  {
    UpdateAsUnion(SegMap(v[si]), key, cell);
    ReplaceSegment(v, hash, si, b, map[key := cell], {});
    UpdateAsUnion(MapOf(v, hash), key, cell);
  }

  // ---------- Published snapshots are immutable ----------

  /** No step changes what a published index shows, whatever the writer is shifting meanwhile. */
  lemma PublishedUnchanged(s: State, a: Action, hash: HashFn, x: nat)
    requires Enabled(s, a, hash) && MemoryOk(s, hash) && WriterOk(s, hash) && x in s.published
    ensures x in Apply(s, a, hash).published && Same(s.mem, Apply(s, a, hash).mem, x)
  {
    hide ViewAt, ViewOk, WriterView, WriterKeys, WriterEnabled, WriterStep, AsSet, JobKeys, N.Drain, W.Advance,
      Less;
    assert IndexOkAt(s.mem, x, hash);
    if a.BeginSet? || a.BeginDelete? || a.BeginFlush? {
      WriteIndex(s.mem, a.index, s.mem.indexes[s.ptr], x);
    } else if WriterAction(a) {
      WriterLeavesAlone(s, s.writer.value, a, hash, x);
    }
  }

  lemma WriterLeavesAlone(s: State, w: Writer, a: Action, hash: HashFn, x: nat)
    requires WriterAction(a) && WriterEnabled(s, w, a) && WriterMemory(s, w)
    requires x in s.published && Known(s.mem, x)
    ensures x in WriterStep(s, w, a, hash).published && Same(s.mem, WriterStep(s, w, a, hash).mem, x)
  {
    hide ViewAt, WriterView, WriterKeys, Splits, SegOk, Effect, SegPut, SegDelete;
    var r := WriterStep(s, w, a, hash);
    match a
    case CopySegment(si, seg) => WriteSegment(s.mem, seg, r.mem.segs[seg], x);
    case EditKeys(i) =>
      if r.mem != s.mem {
        WriteSegment(s.mem, w.group.value.seg, r.mem.segs[w.group.value.seg], x);
      }
    case EditVals => WriteSegment(s.mem, w.group.value.seg, r.mem.segs[w.group.value.seg], x);
    case Install => WriteIndex(s.mem, w.index, r.mem.indexes[w.index], x);
    case _ =>
  }

  // ---------- The writer's own index and copy ----------

  /** The same for the index under construction, until its segment is put in. */
  lemma OwnUnchanged(s: State, w: Writer, a: Action, hash: HashFn)
    requires WriterAction(a) && WriterEnabled(s, w, a) && WriterMemory(s, w) && w.stage.Building? && !a.Install?
    ensures Same(s.mem, WriterStep(s, w, a, hash).mem, w.index)
  {
    hide ViewAt, WriterView, WriterKeys, Splits, SegOk, Effect, SegPut, SegDelete;
    var r := WriterStep(s, w, a, hash);
    match a
    case CopySegment(si, seg) => WriteSegment(s.mem, seg, r.mem.segs[seg], w.index);
    case EditKeys(i) =>
      if r.mem != s.mem {
        WriteSegment(s.mem, w.group.value.seg, r.mem.segs[w.group.value.seg], w.index);
      }
    case EditVals => WriteSegment(s.mem, w.group.value.seg, r.mem.segs[w.group.value.seg], w.index);
    case _ =>
  }

  lemma PrivateKept(s: State, w: Writer, a: Action, hash: HashFn)
    requires WriterAction(a) && WriterEnabled(s, w, a) && WriterMemory(s, w) && w.stage.Building? && MemoryOk(s, hash)
    ensures var r := WriterStep(s, w, a, hash); r.writer.Some? ==> WriterMemory(r, r.writer.value)
  {
    hide ViewAt, WriterView, WriterKeys, ViewOk, Splits, SegOk, Effect, SegPut, SegDelete, KeyEnded, JobScheduled,
      W.Shape, DeltaChange, SegAt;
    if !a.Install? {
      OwnUnchanged(s, w, a, hash);
    }
    match a
    case CopySegment(si, seg) =>
      forall x | x in s.published
        ensures x in s.mem.indexes && seg !in s.mem.indexes[x]
      {
        assert Known(s.mem, x) by { assert IndexOkAt(s.mem, x, hash); }
      }
    case Install =>
    case Publish =>
    case _ =>
  }

  lemma {:induction false} SelectExact(keys: seq<Str>, m: Memory, ptr: nat, hash: HashFn, si: nat, k: Str)
    ensures k in Select(keys, m, ptr, hash, si) <==> k in keys && SlotOf(m, ptr, hash, k) == si
  {
    if keys != [] {
      SelectExact(keys[1..], m, ptr, hash, si, k);
    }
  }

  lemma KeysKept(s: State, w: Writer, a: Action, hash: HashFn)
    requires WriterAction(a) && WriterEnabled(s, w, a) && WriterKeys(w, hash) && w.stage.Building?
    requires Known(s.mem, w.base)
    ensures var r := WriterStep(s, w, a, hash);
            r.writer.Some? && r.writer.value.stage.Building? ==> WriterKeys(r.writer.value, hash)
  {
    hide Splits, SegOk, Effect, SegPut, SegDelete, KeyEnded, JobScheduled, W.Shape, DeltaChange, SegAt, ViewAt,
      GroupKeysOk,
      KeysOfGroup, JobKeys, Known;
    match a
    case CopySegment(si, seg) => CopyKeys(w, s.mem, hash, si, seg);
    case EditKeys(i) => NextKey(w.job, w.group.value, WriterStep(s, w, a, hash).writer.value.group.value, hash);
    case EditVals => SameKeys(w.job, w.group.value, WriterStep(s, w, a, hash).writer.value.group.value, hash);
    case CountKey => SameKeys(w.job, w.group.value, WriterStep(s, w, a, hash).writer.value.group.value, hash);
    case EndKey => NextKey(w.job, w.group.value, WriterStep(s, w, a, hash).writer.value.group.value, hash);
    case Install => InstallKeys(w, hash);
    case _ =>
  }

  lemma CopyKeys(w: Writer, m: Memory, hash: HashFn, si: nat, seg: nat)
    requires WriterKeys(w, hash) && Known(m, w.base) && si in w.todo
    ensures GroupKeysOk(w.job, Group(si, seg, KeysOfGroup(w.job, m, w.base, hash, si), {}, Idle, 0), hash)
  {
    if w.job.Drop? {
      forall k
        ensures k in KeysOfGroup(w.job, m, w.base, hash, si) <==> k in w.job.keys && hash(k) % SEGMENTS == si
      {
        SelectExact(w.job.keys, m, w.base, hash, si, k);
      }
    }
  }

  lemma InstallKeys(w: Writer, hash: HashFn)
    requires WriterKeys(w, hash) && w.group.Some? && w.group.value.left == []
    ensures var g := w.group.value;
            WriterKeys(w.(todo := w.todo - {g.si}, group := None, done := w.done + g.done,
              delta := w.delta + g.delta), hash)
  {
  }

  lemma SameKeys(job: Job, g: Group, f: Group, hash: HashFn)
    requires GroupKeysOk(job, g, hash) && f.si == g.si && f.left == g.left && f.done == g.done
    ensures GroupKeysOk(job, f, hash)
  {
  }

  lemma NextKey(job: Job, g: Group, f: Group, hash: HashFn)
    requires GroupKeysOk(job, g, hash) && g.left != [] && f.si == g.si
    requires (f.left == g.left[1..] && f.done == g.done + {g.left[0]}) || (f.left == g.left && f.done == g.done)
    ensures GroupKeysOk(job, f, hash)
  {
    assert g.left == [g.left[0]] + g.left[1..];
  }

  // ---------- What the writer has built ----------

  lemma ViewIs(m: Memory, x: nat, si: nat)
    requires Known(m, x) && si < SEGMENTS
    ensures ViewAt(m, x)[si] == m.segs[m.indexes[x][si]] == SegAt(m, x, si)
  {
  }

  lemma SegmentOk(v: seq<Seg<Cell>>, hash: HashFn, si: nat)
    requires ViewOk(v, hash) && si < SEGMENTS
    ensures SegOk(v[si])
  {
  }

  lemma CopyKept(s: State, w: Writer, si: nat, seg: nat, hash: HashFn)
    requires WriterEnabled(s, w, CopySegment(si, seg)) && WriterMemory(s, w) && WriterView(s, w, hash)
    requires IndexOkAt(s.mem, w.base, hash)
    ensures var r := WriterStep(s, w, CopySegment(si, seg), hash); WriterView(r, r.writer.value, hash)
  {
    hide ViewAt, Built, Worked, ViewOk, Private, Same;
    var v := ViewAt(s.mem, w.base);
    var r := WriterStep(s, w, CopySegment(si, seg), hash);
    OwnUnchanged(s, w, CopySegment(si, seg), hash);
    WriterLeavesAlone(s, w, CopySegment(si, seg), hash, w.base);
    ViewIs(s.mem, w.base, si);
    SegmentOk(v, hash, si);
    WorkedNone(w.job, v[si]);
    SameViews(s.mem, r.mem, w.base);
    SameViews(s.mem, r.mem, w.index);
  }

  lemma SameViews(m: Memory, n: Memory, x: nat)
    requires Same(m, n, x)
    ensures Known(m, x) && Known(n, x) && ViewAt(n, x) == ViewAt(m, x)
  {
  }

  /** The three steps of an edit, as far as the copy is concerned. */
  lemma EditKept(m: Memory, job: Job, g: Group, a: Seg<Cell>, i: nat)
    requires GroupWork(m, job, g, a) && g.edit.Idle? && g.left != []
    requires Splits(m.segs[g.seg].keys, g.left[0], i)
    ensures var b := m.segs[g.seg];
            var found := i < |b.keys| && b.keys[i] == g.left[0];
            SegOk(b) &&
            (job.Drop? && !found ==> GroupWork(m, job, g.(left := g.left[1..], done := g.done + {g.left[0]}), a)) &&
            (job.Put? || found ==>
               forall n: Memory :: g.seg in n.segs && n.segs[g.seg] == Seg(Effect(job, b, i).keys, b.vals) ==>
                 GroupWork(n, job, g.(edit := Editing(KeysDone, i, found, b)), a))
  {
    var b := m.segs[g.seg];
    if job.Drop? && !(i < |b.keys| && b.keys[i] == g.left[0]) {
      SplitFinds(b.keys, g.left[0], i);
      WorkedMissing(job, a, g.done, b, g.delta, g.left[0]);
    }
  }

  lemma EndKept(m: Memory, job: Job, g: Group, a: Seg<Cell>)
    requires GroupWork(m, job, g, a) && g.edit.Editing? && g.edit.step.Counted?
    requires job.Put? ==> g.left == [job.key] && g.done == {}
    ensures var e := g.edit;
            GroupWork(m, job, g.(left := g.left[1..], done := g.done + {g.left[0]}, edit := Idle,
                      delta := g.delta + DeltaChange(job, g.left[0], e.before, e.i, e.found)), a) &&
            |m.segs[g.seg].keys| == |e.before.keys| + CountChange(job, e.found)
  {
    var e := g.edit;
    if job.Put? {
      WorkedPut(job, a, e.i);
    } else {
      WorkedDrop(job, a, g.done, e.before, g.delta, e.i);
    }
  }

  /** Steps that leave both indexes as they are and change the copy as they should. */
  lemma ViewKeptBy(s: State, w: Writer, r: State, u: Writer, hash: HashFn)
    requires WriterView(s, w, hash) && w.stage.Building? && u.stage.Building?
    requires Same(s.mem, r.mem, w.base) && Same(s.mem, r.mem, w.index)
    requires u.job == w.job && u.base == w.base && u.index == w.index && u.todo == w.todo && u.done == w.done &&
            u.delta == w.delta
    requires w.group.Some? && u.group.Some? && u.group.value.si == w.group.value.si
    requires w.group.value.si < SEGMENTS ==>
            GroupWork(r.mem, u.job, u.group.value, ViewAt(s.mem, w.base)[w.group.value.si])
    ensures WriterView(r, u, hash)
  {
    hide ViewAt, Built, GroupWork;
  }

  lemma EditKeysKept(s: State, w: Writer, i: nat, hash: HashFn)
    requires WriterEnabled(s, w, EditKeys(i)) && WriterMemory(s, w) && WriterView(s, w, hash)
    requires IndexOkAt(s.mem, w.base, hash)
    ensures var r := WriterStep(s, w, EditKeys(i), hash); WriterView(r, r.writer.value, hash)
  {
    hide ViewAt, Built, Worked, ViewOk, Effect, Splits, SegOk, Private, Same, AsSet, KeyEnded, GroupWork, IndexWork;
    var r := WriterStep(s, w, EditKeys(i), hash);
    var g := w.group.value;
    OwnUnchanged(s, w, EditKeys(i), hash);
    WriterLeavesAlone(s, w, EditKeys(i), hash, w.base);
    EditKept(s.mem, w.job, g, ViewAt(s.mem, w.base)[g.si], i);
    ViewKeptBy(s, w, r, r.writer.value, hash);
  }

  lemma EditValsKept(s: State, w: Writer, hash: HashFn)
    requires WriterEnabled(s, w, EditVals) && WriterMemory(s, w) && WriterView(s, w, hash)
    requires IndexOkAt(s.mem, w.base, hash)
    ensures var r := WriterStep(s, w, EditVals, hash); WriterView(r, r.writer.value, hash)
  {
    hide ViewAt, Built, Worked, ViewOk, Effect, Splits, SegOk, Private, Same, AsSet, KeyEnded, IndexWork;
    var r := WriterStep(s, w, EditVals, hash);
    var g := w.group.value;
    OwnUnchanged(s, w, EditVals, hash);
    WriterLeavesAlone(s, w, EditVals, hash, w.base);
    ViewKeptBy(s, w, r, r.writer.value, hash);
  }

  lemma CountKeyKept(s: State, w: Writer, hash: HashFn)
    requires WriterEnabled(s, w, CountKey) && WriterMemory(s, w) && WriterView(s, w, hash)
    requires IndexOkAt(s.mem, w.base, hash)
    ensures var r := WriterStep(s, w, CountKey, hash); WriterView(r, r.writer.value, hash)
  {
    hide ViewAt, Built, Worked, ViewOk, Effect, Splits, SegOk, Private, AsSet, KeyEnded, IndexWork;
    var r := WriterStep(s, w, CountKey, hash);
    ViewKeptBy(s, w, r, r.writer.value, hash);
  }

  lemma EndKeyKept(s: State, w: Writer, hash: HashFn)
    requires WriterEnabled(s, w, EndKey) && WriterMemory(s, w) && WriterView(s, w, hash) && WriterKeys(w, hash)
    requires IndexOkAt(s.mem, w.base, hash)
    ensures var r := WriterStep(s, w, EndKey, hash); WriterView(r, r.writer.value, hash)
  {
    hide ViewAt, Built, Worked, ViewOk, Effect, Splits, SegOk, Private, AsSet, KeyEnded, GroupWork, IndexWork;
    var r := WriterStep(s, w, EndKey, hash);
    var g := w.group.value;
    EndKept(s.mem, w.job, g, ViewAt(s.mem, w.base)[g.si]);
    ViewKeptBy(s, w, r, r.writer.value, hash);
  }

  lemma InstalledView(m: Memory, x: nat, si: nat, seg: nat)
    requires Known(m, x) && si < SEGMENTS && seg in m.segs
    ensures var ids: seq<nat> := m.indexes[x][si := seg];
            Known(m.(indexes := m.indexes[x := ids]), x) &&
            ViewAt(m.(indexes := m.indexes[x := ids]), x) == ViewAt(m, x)[si := m.segs[seg]]
  {
  }

  /** Putting the finished copy into the index under construction, on values. */
  lemma InstallWork(v: seq<Seg<Cell>>, u: seq<Seg<Cell>>, w: Writer, hash: HashFn, b: Seg<Cell>)
    requires IndexWork(v, u, w, hash) && WriterKeys(w, hash) && w.group.Some? && w.group.value.left == []
    requires |v| == |u| == SEGMENTS && w.group.value.si < SEGMENTS
    requires Worked(w.job, v[w.group.value.si], w.group.value.done, b, w.group.value.delta)
    ensures var g := w.group.value;
            IndexWork(v, u[g.si := b], w.(todo := w.todo - {g.si}, group := None, done := w.done + g.done,
              delta := w.delta + g.delta), hash) &&
            KeyTotal(u[g.si := b]) == KeyTotal(u) - |v[g.si].keys| + |b.keys|
  {
    hide Built, Worked, KeyTotal;
    var g := w.group.value;
    BuiltInstall(w.job, v, u, hash, w.done, w.delta, g.si, g.done, b, g.delta);
  }

  lemma InstallKept(s: State, w: Writer, hash: HashFn)
    requires WriterEnabled(s, w, Install) && WriterMemory(s, w) && WriterView(s, w, hash) && WriterKeys(w, hash)
    requires Known(s.mem, w.base)
    ensures var r := WriterStep(s, w, Install, hash); WriterView(r, r.writer.value, hash)
    ensures var r := WriterStep(s, w, Install, hash);
            KeyTotal(ViewAt(r.mem, w.index)) == KeyTotal(ViewAt(s.mem, w.index)) -
              |ViewAt(s.mem, w.base)[w.group.value.si].keys| + |s.mem.segs[w.group.value.seg].keys|
  {
    hide ViewAt, IndexWork, Worked, Known, Private, WriterKeys, KeyTotal, Same;
    var r := WriterStep(s, w, Install, hash);
    var g := w.group.value;
    WriterLeavesAlone(s, w, Install, hash, w.base);
    SameViews(s.mem, r.mem, w.base);
    InstalledView(s.mem, w.index, g.si, g.seg);
    InstallWork(ViewAt(s.mem, w.base), ViewAt(s.mem, w.index), w, hash, s.mem.segs[g.seg]);
  }

  /** The finished index, on values. */
  lemma PublishWork(v: seq<Seg<Cell>>, u: seq<Seg<Cell>>, w: Writer, hash: HashFn)
    requires IndexWork(v, u, w, hash) && WriterKeys(w, hash) && w.todo == {}
    ensures |v| == |u| == SEGMENTS && ViewOk(v, hash) && ViewOk(u, hash)
    ensures MapOf(u, hash) == Outcome(w.job, MapOf(v, hash))
    ensures w.delta == BytesOf(u, hash, CellSize) - BytesOf(v, hash, CellSize)
    ensures w.job.Drop? ==> (w.delta == 0 <==> AllZero(MapOf(v, hash), AsSet(w.job.keys), CellSize))
    ensures w.job.Drop? ==> KeyTotal(v) - KeyTotal(u) == |AsSet(w.job.keys) * MapOf(v, hash).Keys|
  {
    hide ViewOk, MapOf, BytesOf, KeyTotal, AllZero, AsSet, Progress;
    assert w.done == JobKeys(w.job);
    if w.job.Drop? {
      ProgressDone(v, u, hash, w.done, w.delta, CellSize);
    }
  }

  /** The new index shows what the job makes of the old one; the size and the number of keys of a batch
      tell what it found. */
  ghost predicate IsOutcome(m: Memory, w: Writer, hash: HashFn) {
    && IndexOkAt(m, w.index, hash)
    && MapAt(m, w.index, hash) == Outcome(w.job, MapAt(m, w.base, hash))
    && (w.job.Drop? ==>
          (w.delta == 0 <==> AllZero(MapAt(m, w.base, hash), AsSet(w.job.keys), CellSize)) &&
          KeyTotal(ViewAt(m, w.base)) - KeyTotal(ViewAt(m, w.index)) ==
            |AsSet(w.job.keys) * MapAt(m, w.base, hash).Keys|)
  }

  lemma PublishKept(s: State, w: Writer, hash: HashFn)
    requires WriterEnabled(s, w, Publish) && WriterMemory(s, w) && WriterView(s, w, hash) && WriterKeys(w, hash)
    requires IndexOkAt(s.mem, w.base, hash)
    ensures var r := WriterStep(s, w, Publish, hash); WriterView(r, r.writer.value, hash)
    ensures IsOutcome(s.mem, w, hash)
  {
    hide ViewAt, ViewOk, MapOf, BytesOf, KeyTotal, AllZero, AsSet, Known, Private, WriterKeys, IndexWork, Outcome;
    PublishWork(ViewAt(s.mem, w.base), ViewAt(s.mem, w.index), w, hash);
  }

  // ---------- Taking the lock ----------

  lemma LockedViews(s: State, job: Job, index: nat, hash: HashFn)
    requires IndexOkAt(s.mem, s.ptr, hash) && index !in s.mem.indexes
    ensures var r := Locked(s, job, index, hash);
            Known(r.mem, index) && ViewAt(r.mem, index) == ViewAt(s.mem, s.ptr) && Same(s.mem, r.mem, s.ptr)
  {
    WriteIndex(s.mem, index, s.mem.indexes[s.ptr], s.ptr);
  }

  lemma LockedKeys(s: State, job: Job, index: nat, hash: HashFn)
    requires Known(s.mem, s.ptr)
    ensures WriterKeys(Locked(s, job, index, hash).writer.value, hash)
    ensures forall si :: si in Locked(s, job, index, hash).writer.value.todo ==> si < SEGMENTS
  {
    forall k | k in JobKeys(job)
      ensures SlotOf(s.mem, s.ptr, hash, k) == hash(k) % SEGMENTS
    {
    }
  }

  lemma LockedOk(s: State, job: Job, index: nat, hash: HashFn)
    requires MemoryOk(s, hash) && index !in s.mem.indexes
    ensures WriterOk(Locked(s, job, index, hash), hash)
    ensures CountedOk(Locked(s, job, index, hash).mem, Locked(s, job, index, hash).writer.value)
  {
    hide ViewAt, ViewOk, WriterKeys, Built, KeyTotal, AsSet, JobKeys, SlotOf;
    assert IndexOkAt(s.mem, s.ptr, hash);
    LockedViews(s, job, index, hash);
    LockedKeys(s, job, index, hash);
    BuiltNone(job, ViewAt(s.mem, s.ptr), hash);
    PublishedKnown(s, hash);
  }

  lemma PublishedKnown(s: State, hash: HashFn)
    requires MemoryOk(s, hash)
    ensures s.published <= s.mem.indexes.Keys
  {
    forall x | x in s.published
      ensures x in s.mem.indexes
    {
      assert IndexOkAt(s.mem, x, hash);
    }
  }

  // ---------- Memory and writer, for every step ----------

  lemma MemoryKept(s: State, a: Action, hash: HashFn)
    requires Enabled(s, a, hash) && MemoryOk(s, hash) && WriterOk(s, hash)
    ensures MemoryOk(Apply(s, a, hash), hash)
  {
    hide WriterView, WriterKeys, WriterMemory, IndexOkAt, Same;
    var r := Apply(s, a, hash);
    forall x | x in s.published
      ensures x in r.published && IndexOkAt(r.mem, x, hash)
    {
      PublishedUnchanged(s, a, hash, x);
      SameOk(s.mem, r.mem, x, hash);
    }
    if a.Publish? {
      PublishOk(s, hash);
    }
    PublishedGrows(s, a, hash);
  }

  lemma PublishOk(s: State, hash: HashFn)
    requires Enabled(s, Publish, hash) && MemoryOk(s, hash) && WriterOk(s, hash)
    ensures IndexOkAt(s.mem, s.writer.value.index, hash)
  {
    hide WriterView, WriterKeys, IndexOkAt;
    PublishKept(s, s.writer.value, hash);
  }

  lemma PublishedGrows(s: State, a: Action, hash: HashFn)
    requires Enabled(s, a, hash) && s.ptr in s.published
    ensures var r := Apply(s, a, hash);
            r.ptr in r.published &&
            (r.published == s.published || (a.Publish? && r.published == s.published + {s.writer.value.index})) &&
            (!a.Publish? ==> r.ptr == s.ptr) && (a.Publish? ==> r.mem == s.mem)
  {
    hide WriterEnabled, WriterStep, ReaderEnabled, ReaderStep, CollectorEnabled, CollectorStep, SlotOf, AsSet, JobKeys;
    if WriterAction(a) {
      WriterPublishes(s, s.writer.value, a, hash);
    } else if !a.BeginSet? && !a.BeginDelete? && !a.BeginFlush? {
      OthersLeave(s, a, hash);
    }
  }

  lemma WriterPublishes(s: State, w: Writer, a: Action, hash: HashFn)
    requires WriterAction(a) && WriterEnabled(s, w, a) && s.ptr in s.published
    ensures var r := WriterStep(s, w, a, hash);
            r.ptr in r.published &&
            (r.published == s.published || (a.Publish? && r.published == s.published + {w.index})) &&
            (!a.Publish? ==> r.ptr == s.ptr) && (a.Publish? ==> r.mem == s.mem)
  {
    hide SegOk, Splits, Effect, KeyEnded, JobScheduled, W.Shape, SegAt, EditFits;
  }

  lemma WriterViewKept(s: State, w: Writer, a: Action, hash: HashFn)
    requires WriterAction(a) && WriterEnabled(s, w, a) && WriterMemory(s, w) && WriterView(s, w, hash)
    requires w.stage.Building? ==> WriterKeys(w, hash)
    requires IndexOkAt(s.mem, w.base, hash)
    ensures var r := WriterStep(s, w, a, hash); r.writer.Some? ==> WriterView(r, r.writer.value, hash)
  {
    hide WriterKeys, IndexWork, ViewAt, ViewOk, SegOk, Splits, Effect, KeyEnded, JobScheduled, W.Shape, SegAt;
    match a
    case CopySegment(si, seg) => CopyKept(s, w, si, seg, hash);
    case EditKeys(i) => EditKeysKept(s, w, i, hash);
    case EditVals => EditValsKept(s, w, hash);
    case CountKey => CountKeyKept(s, w, hash);
    case EndKey => EndKeyKept(s, w, hash);
    case Install => InstallKept(s, w, hash);
    case Publish => PublishKept(s, w, hash);
    case _ =>
  }

  lemma WriterMemoryKept(s: State, w: Writer, a: Action, hash: HashFn)
    requires WriterAction(a) && WriterEnabled(s, w, a) && WriterMemory(s, w) && MemoryOk(s, hash)
    ensures var r := WriterStep(s, w, a, hash); r.writer.Some? ==> WriterMemory(r, r.writer.value)
  {
    if w.stage.Building? {
      PrivateKept(s, w, a, hash);
    }
    hide MemoryOk, SegOk, Splits, Effect, KeyEnded, JobScheduled, W.Shape, SegAt;
  }

  lemma WriterKept(s: State, a: Action, hash: HashFn)
    requires Enabled(s, a, hash) && MemoryOk(s, hash) && WriterOk(s, hash)
    ensures WriterOk(Apply(s, a, hash), hash)
  {
    hide WriterView, WriterKeys, WriterMemory, MemoryOk, IndexOkAt, WriterEnabled, WriterStep, CollectorEnabled,
      ReaderEnabled;
    if WriterAction(a) {
      var w := s.writer.value;
      MemoryAt(s, w, hash);
      WriterMemoryKept(s, w, a, hash);
      if w.stage.Building? {
        KeysKept(s, w, a, hash);
      }
      WriterViewKept(s, w, a, hash);
      StaysBuilding(s, w, a, hash);
    } else if a.BeginSet? || a.BeginDelete? || a.BeginFlush? {
      BeginOk(s, a, hash);
    } else {
      OthersLeave(s, a, hash);
      WriterFrame(s, Apply(s, a, hash), hash);
    }
  }

  lemma MemoryAt(s: State, w: Writer, hash: HashFn)
    requires MemoryOk(s, hash) && WriterMemory(s, w)
    ensures IndexOkAt(s.mem, w.base, hash) && Known(s.mem, w.base)
  {
  }

  lemma StaysBuilding(s: State, w: Writer, a: Action, hash: HashFn)
    requires WriterAction(a) && WriterEnabled(s, w, a)
    ensures var r := WriterStep(s, w, a, hash); r.writer.Some? && r.writer.value.stage.Building? ==> w.stage.Building?
  {
    hide SegOk, Splits, Effect, KeyEnded, JobScheduled, W.Shape, SegAt;
  }

  lemma BeginOk(s: State, a: Action, hash: HashFn)
    requires (a.BeginSet? || a.BeginDelete? || a.BeginFlush?) && BeginEnabled(s, a) && MemoryOk(s, hash)
    ensures WriterOk(Begin(s, a, hash), hash)
    ensures CountedOk(Begin(s, a, hash).mem, Begin(s, a, hash).writer.value) &&
            Begin(s, a, hash).writer.value.counted == 0
  {
    hide MemoryOk, WriterView, WriterKeys, WriterMemory, CountedOk;
    var job := BegunJob(s, a);
    LockedOk(s, job, a.index, hash);
    WriterFrame(Locked(s, job, a.index, hash), Begin(s, a, hash), hash);
  }

  function BegunJob(s: State, a: Action): Job
    requires (a.BeginSet? || a.BeginDelete? || a.BeginFlush?) && BeginEnabled(s, a)
  {
    match a
    case BeginSet(key, data, cachedNow, id, _) => Put(key, Cell(id, data.(accessCount := 0, lastAccess := cachedNow)))
    case BeginDelete(keys, _) => Drop(keys)
    case BeginFlush(_) => Drop(s.inFlight.value)
  }

  lemma WriterFrame(s: State, r: State, hash: HashFn)
    requires WriterOk(s, hash)
    requires r.writer == s.writer && r.mem == s.mem && r.ptr == s.ptr && r.published == s.published
    ensures WriterOk(r, hash)
  {
  }

  ghost predicate LeavesWriter(s: State, r: State) {
    r.writer == s.writer && r.mem == s.mem && r.ptr == s.ptr && r.published == s.published &&
    r.keyCount == s.keyCount && r.usedBytes == s.usedBytes && r.excess == s.excess
  }

  /** Readers and tickers leave everything of the writer's alone. */
  lemma OthersLeave(s: State, a: Action, hash: HashFn)
    requires Enabled(s, a, hash) && !WriterAction(a) && !a.BeginSet? && !a.BeginDelete? && !a.BeginFlush?
    ensures var r := Apply(s, a, hash);
            LeavesWriter(s, r) && (!a.WheelTick? ==> r.wheel == s.wheel) && (!a.NearTick? ==> r.near == s.near)
  {
    hide ReaderEnabled, ReaderStep, CollectorEnabled, CollectorStep, LeavesWriter;
    if ReaderAction(a) {
      ReadersLeave(s, a, hash);
    } else {
      TickersLeave(s, a);
    }
  }

  lemma ReadersLeave(s: State, a: Action, hash: HashFn)
    requires ReaderAction(a) && ReaderEnabled(s, a)
    ensures var r := ReaderStep(s, a, hash); LeavesWriter(s, r) && r.wheel == s.wheel && r.near == s.near
  {
    hide Less, SegAt, SlotOf, Stored, AccessCount;
  }

  lemma TickersLeave(s: State, a: Action)
    requires CollectorEnabled(s, a)
    ensures var r := CollectorStep(s, a);
            LeavesWriter(s, r) && (!a.WheelTick? ==> r.wheel == s.wheel) && (!a.NearTick? ==> r.near == s.near)
  {
    hide N.Drain, W.Advance, W.Expired, W.Shape;
  }
}
