/** The counters over whole runs: when they are exact, and what makes them wrong. */
module StoreLosses {
  import opened GoTypes
  import opened KeyOrder
  import opened SegmentIndex
  import opened BatchDelete
  import opened Entries
  import opened StoreSteps
  import opened StoreInvariant
  import opened StoreKeeps
  import opened StoreCounters
  import opened StoreWheel
  import opened StoreRuns
  import opened MapWeights
  import CM = CollectorModel
  import W = WheelModel

  // ---------- Counters ----------

  lemma {:induction false} AtLeastSegment(v: seq<Seg<Cell>>, si: nat)
    requires si < |v|
    ensures KeyTotal(v) >= |v[si].keys|
  {
    var n := |v| - 1;
    if si < n {
      AtLeastSegment(v[..n], si);
    } else {
      KeyTotalNonNegative(v[..n]);
    }
  }

  lemma {:induction false} KeyTotalNonNegative(v: seq<Seg<Cell>>)
    ensures KeyTotal(v) >= 0
  {
    if v != [] {
      KeyTotalNonNegative(v[..|v| - 1]);
    }
  }

  lemma CommittedCount(s: State, hash: HashFn)
    requires Invariant(s, hash)
    ensures KeyTotal(ViewAt(s.mem, s.ptr)) == |Stored(s, hash)|
  {
    assert IndexOkAt(s.mem, s.ptr, hash);
    ContentsSize(ViewAt(s.mem, s.ptr), hash);
  }

  lemma WorkingCountNonNegative(s: State, hash: HashFn)
    requires Invariant(s, hash)
    ensures KeyTotal(ViewAt(s.mem, s.ptr)) + Uncommitted(s) >= 0
  {
    hide MemoryOk, BytesOk, CollectorInv, ReadersOk, ServedOk, CoalescerOk, ViewAt, KeyTotal, GroupWork, WriterKeys,
      Private, Known, Built;
    KeyTotalNonNegative(ViewAt(s.mem, s.ptr));
    if s.writer.Some? && s.writer.value.stage.Building? {
      var w := s.writer.value;
      KeyTotalNonNegative(ViewAt(s.mem, w.index));
      if w.group.Some? {
        GroupInTodo(s, w, hash);
        AtLeastSegment(ViewAt(s.mem, w.index), w.group.value.si);
      }
    }
  }

  lemma GroupInTodo(s: State, w: Writer, hash: HashFn)
    requires WriterKeys(w, hash) && WriterView(s, w, hash) && w.stage.Building? && w.group.Some?
    ensures w.group.value.si < SEGMENTS
    ensures ViewAt(s.mem, w.index)[w.group.value.si] == ViewAt(s.mem, w.base)[w.group.value.si]
    ensures GroupCount(s.mem, w.job, w.group.value) >= 0
  {
    hide Built, ViewAt;
  }

  lemma CountersNow(r: State, hash: HashFn)
    requires Invariant(r, hash)
    ensures IndexOkAt(r.mem, r.ptr, hash) &&
            r.usedBytes >= 0 && r.excess >= 0 && r.keyCount + r.excess >= 0 &&
            r.keyCount == |Stored(r, hash)| - r.excess + Uncommitted(r) &&
            (if r.writer.Some? && r.writer.value.stage.Published? then
               IndexOkAt(r.mem, r.writer.value.base, hash) &&
                 r.usedBytes == BytesOf(ViewAt(r.mem, r.writer.value.base), hash, CellSize)
             else r.usedBytes == BytesOf(ViewAt(r.mem, r.ptr), hash, CellSize)) &&
            (r.writer.None? ==> r.keyCount == |Stored(r, hash)| - r.excess)
  {
    assert IndexOkAt(r.mem, r.ptr, hash);
    CommittedCount(r, hash);
    WorkingCountNonNegative(r, hash);
    WeightNonNegative(ViewAt(r.mem, r.ptr), CellSize);
    if r.writer.Some? && r.writer.value.stage.Published? {
      WeightNonNegative(ViewAt(r.mem, r.writer.value.base), CellSize);
    }
    hide MemoryOk, WriterOk, CollectorInv, ReadersOk, ServedOk, CoalescerOk, ViewAt, KeyTotal, Stored, Known, IndexOk;
  }

  /** The batch finds no stored key but the empty one, with nothing under it. */
  ghost predicate FindsEmptyKeyOnly(job: Job, m: map<Str, Cell>) {
    job.Drop? && AsSet(job.keys) * m.Keys == {[]} && CellSize([], m[[]]) == 0
  }

  /** Publish passes a delete over, and leaves the count too low, exactly for such a batch. */
  lemma SkippedIff(s: State, hash: HashFn)
    requires Invariant(s, hash) && Enabled(s, Publish, hash)
    ensures var r := Apply(s, Publish, hash);
            r.excess == s.excess + if FindsEmptyKeyOnly(s.writer.value.job, Stored(s, hash)) then 1 else 0
  {
    hide Invariant, Stored, FindsEmptyKeyOnly, AllZero, AsSet;
    var w := s.writer.value;
    SkipFacts(s, w, hash);
    PublishExcess(s, w, hash);
    if w.job.Drop? {
      PassedOverCount(w.job, Stored(s, hash));
    } else {
      SetsFind(w.job, Stored(s, hash));
    }
  }

  lemma PublishExcess(s: State, w: Writer, hash: HashFn)
    requires s.writer == Some(w) && Enabled(s, Publish, hash)
    ensures Apply(s, Publish, hash).excess == s.excess - if w.job.Drop? && w.delta == 0 then w.counted else 0
  {
  }

  lemma SetsFind(job: Job, m: map<Str, Cell>)
    requires job.Put?
    ensures !FindsEmptyKeyOnly(job, m)
  {
  }

  lemma PassedOverCount(job: Job, m: map<Str, Cell>)
    requires job.Drop?
    ensures (if AllZero(m, AsSet(job.keys), CellSize) then |AsSet(job.keys) * m.Keys| else 0) ==
            if FindsEmptyKeyOnly(job, m) then 1 else 0
  {
    hide AllZero, AsSet;
    NoneStored(m, AsSet(job.keys));
  }

  lemma NoneStored(m: map<Str, Cell>, keys: set<Str>)
    ensures |keys * m.Keys| == 0 <==> keys * m.Keys == {}
    ensures keys * m.Keys == {} ==> AllZero(m, keys, CellSize)
    ensures keys * m.Keys == {[]} && CellSize([], m[[]]) == 0 ==> AllZero(m, keys, CellSize)
    ensures AllZero(m, keys, CellSize) && keys * m.Keys != {} ==> keys * m.Keys == {[]} && CellSize([], m[[]]) == 0
  {
    assert forall k :: k in keys && k in m ==> k in keys * m.Keys;
    if AllZero(m, keys, CellSize) && keys * m.Keys != {} {
      forall k | k in keys * m.Keys
        ensures k == [] && CellSize(k, m[k]) == 0
      {
      }
      var k :| k in keys * m.Keys;
      assert [] in keys * m.Keys;
      assert keys * m.Keys == {[]};
    }
  }

  lemma SkipFacts(s: State, w: Writer, hash: HashFn)
    requires s.writer == Some(w) && Invariant(s, hash) && WriterEnabled(s, w, Publish)
    ensures w.job.Drop? ==> (w.delta == 0 <==> AllZero(Stored(s, hash), AsSet(w.job.keys), CellSize))
    ensures w.job.Drop? ==> w.counted == -|AsSet(w.job.keys) * Stored(s, hash).Keys|
  {
    hide MemoryOk, BytesOk, CollectorInv, ReadersOk, ServedOk, CoalescerOk, WriterView, WriterKeys, ViewAt, KeyTotal,
      AllZero, AsSet,
      Private, Known, IndexOkAt, MapAt;
    MemoryAt(s, w, hash);
    PublishKept(s, w, hash);
  }

  lemma NoExcess(s: State, a: Action, hash: HashFn)
    requires Enabled(s, a, hash) && Invariant(s, hash) && !a.Publish? && !a.CancelPanics?
    ensures Apply(s, a, hash).excess == s.excess
  {
    hide BytesOk, CollectorInv, ReadersOk, ServedOk, CoalescerOk, WriterEnabled, WriterStep, WriterMemory, WriterView,
      WriterKeys,
      MemoryOk, ReaderEnabled, ReaderStep, CollectorEnabled, CollectorStep, Begin, BeginEnabled, ViewAt, KeyTotal,
        CountedOk;
    if WriterAction(a) {
      var w := s.writer.value;
      if w.stage.Building? {
        BuildingCount(s, w, a, hash);
      } else {
        LateCount(s, w, a, hash);
      }
    } else if a.BeginSet? || a.BeginDelete? || a.BeginFlush? {
      BeginCounters(s, a, hash);
    } else {
      OthersLeave(s, a, hash);
    }
  }

  // ---------- What a run loses ----------

  /** The stored keys that a step leaves stored although the batch has counted them down: those of a
      batch that panics, and the empty key of a batch that is passed over. */
  ghost function KeysLost(s: State, a: Action, hash: HashFn): set<Str> {
    if a.CancelPanics? then CountedKeys(s, hash)
    else if a.Publish? && s.writer.Some? && FindsEmptyKeyOnly(s.writer.value.job, Stored(s, hash)) then {[]}
    else {}
  }

  ghost predicate Loses(s: State, a: Action, hash: HashFn) {
    a.CancelPanics? || (a.Publish? && s.writer.Some? && FindsEmptyKeyOnly(s.writer.value.job, Stored(s, hash)))
  }

  lemma StepLoses(s: State, a: Action, hash: HashFn)
    requires Enabled(s, a, hash) && Invariant(s, hash)
    ensures Apply(s, a, hash).excess == s.excess + |KeysLost(s, a, hash)|
    ensures KeysLost(s, a, hash) <= Stored(Apply(s, a, hash), hash).Keys
    ensures Loses(s, a, hash) <==> KeysLost(s, a, hash) != {}
  {
    hide MemoryOk, WriterOk, BytesOk, CountOk, CollectorInv, ReadersOk, ServedOk, CoalescerOk, WriterEnabled,
      WriterStep, BeginEnabled, ReaderEnabled, CollectorEnabled, Stored, FindsEmptyKeyOnly, CountedKeys, AfterJob;
    StoredChangesAtPublish(s, a, hash);
    if a.CancelPanics? {
      PanicLoses(s, hash);
    } else if a.Publish? {
      SkippedIff(s, hash);
      if FindsEmptyKeyOnly(s.writer.value.job, Stored(s, hash)) {
        EmptyKeyStays(s.writer.value.job, Stored(s, hash));
      }
    } else {
      NoExcess(s, a, hash);
    }
  }

  lemma PanicLoses(s: State, hash: HashFn)
    requires Enabled(s, CancelPanics, hash) && Invariant(s, hash)
    ensures Apply(s, CancelPanics, hash).excess == s.excess + |CountedKeys(s, hash)|
    ensures {} != CountedKeys(s, hash) <= Stored(s, hash).Keys
  {
    hide MemoryOk, BytesOk, CollectorInv, ReadersOk, ServedOk, CoalescerOk, Stored, WriterView, WriterKeys, ViewAt,
      KeyTotal, KeyEnded, CountedOk;
    PanicCount(s, s.writer.value, hash);
  }

  lemma EmptyKeyStays(job: Job, m: map<Str, Cell>)
    requires FindsEmptyKeyOnly(job, m)
    ensures [] in AfterJob(job, m)
  {
    NoneStored(m, AsSet(job.keys));
    assert [] in AsSet(job.keys) * m.Keys;
  }

  ghost function LostOver(s: State, run: seq<Action>, hash: HashFn): nat
    requires RunOk(s, run, hash)
    decreases |run|
  {
    if run == [] then 0 else |KeysLost(s, run[0], hash)| + LostOver(Apply(s, run[0], hash), run[1..], hash)
  }

  lemma {:induction false} RunLoses(s: State, run: seq<Action>, hash: HashFn)
    requires RunOk(s, run, hash) && Invariant(s, hash)
    ensures RunEnd(s, run, hash).excess == s.excess + LostOver(s, run, hash)
    decreases |run|
  {
    hide Invariant, Enabled, Apply, KeysLost;
    if run != [] {
      StepLoses(s, run[0], hash);
      StepKeepsInvariant(s, run[0], hash);
      RunLoses(Apply(s, run[0], hash), run[1..], hash);
    }
  }

  /** At every moment of every run. The published size is never off by more than the writer that is
      about to account for its publication, the key count by no more than the writer's open edits and
      the keys lost by batches that panicked or were passed over. */
  lemma CountersOverRuns(s: State, run: seq<Action>, hash: HashFn)
    requires Initial(s, hash) && RunOk(s, run, hash)
    ensures var r := RunEnd(s, run, hash);
            var lost := LostOver(s, run, hash);
            IndexOkAt(r.mem, r.ptr, hash) && r.usedBytes >= 0 && r.keyCount + lost >= 0 &&
            r.keyCount == |Stored(r, hash)| - lost + Uncommitted(r) &&
            (if r.writer.Some? && r.writer.value.stage.Published? then
               IndexOkAt(r.mem, r.writer.value.base, hash) &&
                 r.usedBytes == BytesOf(ViewAt(r.mem, r.writer.value.base), hash, CellSize)
             else r.usedBytes == BytesOf(ViewAt(r.mem, r.ptr), hash, CellSize)) &&
            (r.writer.None? ==> r.keyCount == |Stored(r, hash)| - lost)
  {
    hide Enabled, Apply, IndexOkAt, ViewAt, LostOver, Stored;
    InitialInvariant(s, hash);
    RunKeepsInvariant(s, run, hash);
    RunLoses(s, run, hash);
    hide Invariant;
    CountersNow(RunEnd(s, run, hash), hash);
  }

  /** Step i of the run loses keys. */
  ghost predicate LosesAt(s: State, run: seq<Action>, hash: HashFn, i: nat) {
    i < |run| && RunOk(s, run[..i], hash) && Loses(RunEnd(s, run[..i], hash), run[i], hash)
  }

  /** A run loses nothing exactly if none of its steps does. */
  lemma {:induction false} NothingLostIff(s: State, run: seq<Action>, hash: HashFn)
    requires RunOk(s, run, hash) && Invariant(s, hash)
    ensures LostOver(s, run, hash) == 0 <==> forall i: nat :: !LosesAt(s, run, hash, i)
    decreases |run|
  {
    hide Invariant, Enabled, Apply, KeysLost, Loses;
    if run != [] {
      var r := Apply(s, run[0], hash);
      StepLoses(s, run[0], hash);
      StepKeepsInvariant(s, run[0], hash);
      NothingLostIff(r, run[1..], hash);
      LosesFirst(s, run, hash);
      forall i: nat
        ensures LosesAt(s, run, hash, i + 1) <==> LosesAt(r, run[1..], hash, i)
      {
        LosesLater(s, run, hash, i);
      }
      forall i: nat | i > 0
        ensures LosesAt(s, run, hash, i) <==> LosesAt(r, run[1..], hash, i - 1)
      {
        LosesLater(s, run, hash, i - 1);
      }
    }
  }

  lemma LosesFirst(s: State, run: seq<Action>, hash: HashFn)
    requires RunOk(s, run, hash) && run != []
    ensures LosesAt(s, run, hash, 0) <==> Loses(s, run[0], hash)
  {
    hide Enabled, Apply, Loses;
    assert run[..0] == [];
  }

  lemma LosesLater(s: State, run: seq<Action>, hash: HashFn, i: nat)
    requires RunOk(s, run, hash) && run != []
    ensures LosesAt(s, run, hash, i + 1) <==> LosesAt(Apply(s, run[0], hash), run[1..], hash, i)
  {
    hide Enabled, Apply, Loses;
    if i + 1 < |run| {
      RunSplits(Apply(s, run[0], hash), run[1..], hash, i);
      PrefixShift(s, run, hash, i);
    }
  }

  /** Whenever the lock is free, the size is that of the stored entries, and the key count is exact if
      and only if no step of the run was the panic of a Cancel or the passing over of a batch. */
  lemma CountersExact(s: State, run: seq<Action>, hash: HashFn)
    requires Initial(s, hash) && RunOk(s, run, hash)
    ensures var r := RunEnd(s, run, hash);
            IndexOkAt(r.mem, r.ptr, hash) && r.usedBytes >= 0 &&
            ((forall i: nat :: !LosesAt(s, run, hash, i)) ==> r.keyCount >= 0) &&
            (r.writer.None? ==>
               r.usedBytes == MapWeight(Stored(r, hash), CellSize) && r.keyCount <= |Stored(r, hash)| &&
               (r.keyCount == |Stored(r, hash)| <==> forall i: nat :: !LosesAt(s, run, hash, i)))
  {
    hide Enabled, Apply, IndexOkAt, ViewAt, LosesAt, LostOver, Stored, Initial;
    var none := forall i: nat :: !LosesAt(s, run, hash, i);
    InitialInvariant(s, hash);
    NothingLostIff(s, run, hash);
    hide Invariant;
    CountersOverRuns(s, run, hash);
    StoredWeight(RunEnd(s, run, hash), hash);
  }

  lemma StoredWeight(s: State, hash: HashFn)
    requires IndexOkAt(s.mem, s.ptr, hash)
    ensures BytesOf(ViewAt(s.mem, s.ptr), hash, CellSize) == MapWeight(Stored(s, hash), CellSize)
  {
    IndexWeight(ViewAt(s.mem, s.ptr), hash, CellSize);
  }

  // ---------- Entries of positive size ----------

  /** Nothing of size zero is stored or about to be. */
  ghost predicate Positive(s: State, hash: HashFn) {
    && (forall k :: k in Stored(s, hash) ==> CellSize(k, Stored(s, hash)[k]) > 0)
    && (s.writer.Some? && s.writer.value.job.Put? ==> CellSize(s.writer.value.job.key, s.writer.value.job.cell) > 0)
  }

  ghost predicate SetsPositive(a: Action) {
    a.BeginSet? ==> EntrySize(a.key, a.data.originalSize, a.data.value) > 0
  }

  lemma WriterJob(s: State, a: Action, hash: HashFn)
    requires Enabled(s, a, hash)
    ensures var r := Apply(s, a, hash);
            r.writer.Some? && r.writer.value.job.Put? ==>
              if a.BeginSet? then r.writer.value.job.key == a.key &&
                r.writer.value.job.cell.data.value == a.data.value &&
                                  r.writer.value.job.cell.data.originalSize == a.data.originalSize
              else s.writer.Some? && s.writer.value.job == r.writer.value.job
  {
    hide KeyEnded, JobScheduled, W.Advance, W.Shape, SegOk, Splits, Effect, SegAt, SlotOf, Stored, Less, JobKeys,
      ReaderStep, ReaderEnabled,
      CollectorStep, CollectorEnabled, EditFits, DeltaChange;
    if !WriterAction(a) && !a.BeginSet? && !a.BeginDelete? && !a.BeginFlush? {
      OthersLeave(s, a, hash);
    }
  }

  lemma PositiveKept(s: State, a: Action, hash: HashFn)
    requires Enabled(s, a, hash) && Invariant(s, hash) && Positive(s, hash) && SetsPositive(a)
    ensures Positive(Apply(s, a, hash), hash)
    ensures Loses(s, a, hash) <==> a.CancelPanics?
  {
    hide MemoryOk, WriterOk, BytesOk, CountOk, CollectorInv, ReadersOk, ServedOk, CoalescerOk, WriterEnabled,
      BeginEnabled, ReaderEnabled, CollectorEnabled, Apply, Stored, AllZero;
    StoredChangesAtPublish(s, a, hash);
    WriterJob(s, a, hash);
    if a.Publish? {
      FindsNone(s.writer.value.job, Stored(s, hash));
    }
  }

  lemma FindsNone(job: Job, m: map<Str, Cell>)
    requires forall k :: k in m ==> CellSize(k, m[k]) > 0
    ensures !FindsEmptyKeyOnly(job, m)
  {
    if job.Drop? {
      assert AsSet(job.keys) * m.Keys == {[]} ==> [] in AsSet(job.keys) * m.Keys;
    }
  }

  lemma {:induction false} OnlyPanicsLose(s: State, run: seq<Action>, hash: HashFn)
    requires RunOk(s, run, hash) && Invariant(s, hash) && Positive(s, hash) && forall a :: a in run ==> SetsPositive(a)
    ensures LostOver(s, run, hash) == 0 <==> forall a :: a in run ==> !a.CancelPanics?
    decreases |run|
  {
    hide Invariant, Positive, Enabled, Apply, SetsPositive, Loses, KeysLost;
    if run != [] {
      StepLoses(s, run[0], hash);
      StepKeepsInvariant(s, run[0], hash);
      PositiveKept(s, run[0], hash);
      OnlyPanicsLose(Apply(s, run[0], hash), run[1..], hash);
      assert forall a :: a in run <==> a == run[0] || a in run[1..];
    }
  }

  /** While no entry without key and value is ever stored, the key count is exact whenever the lock is
      free, and never negative, exactly if no Cancel of the run panicked. */
  lemma PositiveCountersExact(s: State, run: seq<Action>, hash: HashFn)
    requires Initial(s, hash) && RunOk(s, run, hash) && forall a :: a in run ==> SetsPositive(a)
    ensures var r := RunEnd(s, run, hash);
            ((forall a :: a in run ==> !a.CancelPanics?) ==> r.keyCount >= 0) &&
            (r.writer.None? ==> (r.keyCount == |Stored(r, hash)| <==> forall a :: a in run ==> !a.CancelPanics?))
  {
    hide Enabled, Apply, IndexOkAt, ViewAt, SetsPositive, LostOver;
    InitialInvariant(s, hash);
    assert Positive(s, hash);
    OnlyPanicsLose(s, run, hash);
    hide Invariant, Initial, Stored;
    CountersOverRuns(s, run, hash);
  }

  // ---------- When a Cancel panics ----------

  /** Counted, a key of a batch is cancelled, or its Cancel panics: exactly if the position that the
      near queue has on record for it is past the end of the heap. */
  lemma CancelPanicsIff(s: State, w: Writer, hash: HashFn)
    requires Invariant(s, hash) && s.writer == Some(w) && AtEdit(s, w, Counted)
    ensures Enabled(s, CancelPanics, hash) <==> w.job.Drop? && CM.PastEnd(s.near, w.group.value.left[0])
    ensures Enabled(s, EndKey, hash) <==> !Enabled(s, CancelPanics, hash)
  {
    hide Invariant, AtEdit, W.Shape;
    GcShaped(s, hash);
    EditHasKey(s, w);
    KeyPanicsIff(s, w);
  }

  lemma GcShaped(s: State, hash: HashFn)
    requires Invariant(s, hash)
    ensures W.Shape(s.wheel)
  {
    hide MemoryOk, WriterOk, BytesOk, CountOk, ReadersOk, ServedOk, CoalescerOk, Stored, W.WheelOk;
    WheelShaped(s.wheel);
  }

  lemma EditHasKey(s: State, w: Writer)
    requires AtEdit(s, w, Counted)
    ensures w.group.Some? && w.group.value.left != []
  {
  }

  lemma KeyPanicsIff(s: State, w: Writer)
    requires W.Shape(s.wheel) && w.group.Some? && w.group.value.left != []
    ensures KeyEnded(s, w).Err? <==> w.job.Drop? && CM.PastEnd(s.near, w.group.value.left[0])
  {
    CM.CancelHeap(GcOf(s), w.group.value.left[0]);
    hide CM.Cancel, CM.PastEnd;
  }
}
