/** The runs of the machine seen from outside: what the Sets and Deletes asked for, as the actions of
    the run say it, is what the store holds and what its readers are given. */
module StoreRequests {
  import opened GoTypes
  import opened KeyOrder
  import opened SegmentIndex
  import opened BatchDelete
  import opened Entries
  import opened StoreSteps
  import opened StoreInvariant
  import opened StoreReaders
  import opened StoreWheel
  import opened StoreRuns
  import opened StoreHistory
  import opened NearQueueProofs
  import CM = CollectorModel
  import E = EarlyDeletes
  import N = NearModel
  import T = WheelTimers
  import W = WheelModel

  // ---------- Requests ----------

  datatype Request =
    | SetRequest(key: Str, data: StorageEntry, cachedNow: int, id: nat)
    | DeleteRequest(keys: seq<Str>)

  /** The entry that a Set stores: what the caller gave, never read. */
  ghost predicate EntryFor(e: StorageEntry, q: Request)
    requires q.SetRequest?
  {
    && e.value == q.data.value && e.originalSize == q.data.originalSize
    && e.ttl == q.data.ttl && e.createdAt == q.data.createdAt && e.expiresAt == q.data.expiresAt
    && e.singleRead == q.data.singleRead
    && e.accessCount == 0 && e.lastAccess == q.cachedNow
  }

  /** The job is what was asked for: one key with its entry in a new cell, or exactly these keys. */
  ghost predicate Asks(q: Request, job: Job) {
    match q
    case SetRequest(key, _, _, id) => job.Put? && job.key == key && job.cell.id == id && EntryFor(job.cell.data, q)
    case DeleteRequest(keys) => job.Drop? && job.keys == keys
  }

  /** The keys that the last flush took from the coalescer. */
  function Taken(a: Action, taken: seq<Str>): seq<Str> {
    if a.TakePending? then a.keys else taken
  }

  /** The request that took the lock last. */
  function Current(a: Action, taken: seq<Str>, current: Option<Request>): Option<Request> {
    match a
    case BeginSet(key, data, cachedNow, id, _) => Some(SetRequest(key, data, cachedNow, id))
    case BeginDelete(keys, _) => Some(DeleteRequest(keys))
    case BeginFlush(_) => Some(DeleteRequest(taken))
    case _ => current
  }

  /** The requests that were published, in that order, read off the actions alone. */
  function Served(run: seq<Action>, taken: seq<Str>, current: Option<Request>): seq<Request>
    decreases |run|
  {
    if run == [] then [] else
      (if run[0].Publish? && current.Some? then [current.value] else []) +
      Served(run[1..], Taken(run[0], taken), Current(run[0], taken, current))
  }

  // ---------- The lock holder does what was asked for ----------

  /** What the actions say and what the state holds agree. */
  ghost predicate Tracks(s: State, taken: seq<Str>, current: Option<Request>) {
    && (s.inFlight.Some? ==> s.inFlight.value == taken)
    && (s.writer.Some? ==> current.Some? && Asks(current.value, s.writer.value.job))
  }

  /** Whoever takes the lock does what its action asks for, all fields of an entry included. */
  lemma BegunAsAsked(s: State, a: Action, hash: HashFn, taken: seq<Str>, current: Option<Request>)
    requires (a.BeginSet? || a.BeginDelete? || a.BeginFlush?) && BeginEnabled(s, a) && Tracks(s, taken, current)
    ensures Tracks(Begin(s, a, hash), Taken(a, taken), Current(a, taken, current))
    ensures Begin(s, a, hash).writer.Some?
  {
    hide SlotOf, JobKeys;
  }

  lemma WriterTracks(s: State, w: Writer, a: Action, hash: HashFn)
    requires s.writer == Some(w) && WriterAction(a) && WriterEnabled(s, w, a)
    ensures var r := WriterStep(s, w, a, hash);
            r.inFlight == s.inFlight && (r.writer.Some? ==> r.writer.value.job == w.job)
  {
    hide KeyEnded, JobScheduled, W.Shape, SegOk, Splits, Effect, SegAt, SlotOf, EditFits, DeltaChange;
  }

  lemma OthersTrack(s: State, a: Action, hash: HashFn)
    requires Enabled(s, a, hash) && !WriterAction(a) && !a.BeginSet? && !a.BeginDelete? && !a.BeginFlush?
    ensures var r := Apply(s, a, hash);
            r.writer == s.writer && r.inFlight == if a.TakePending? then Some(a.keys) else s.inFlight
  {
    hide N.Drain, W.Advance, W.Expired, W.Shape, SegAt, SlotOf, Stored, AccessCount;
  }

  lemma StepTracks(s: State, a: Action, hash: HashFn, taken: seq<Str>, current: Option<Request>)
    requires Enabled(s, a, hash) && Tracks(s, taken, current)
    ensures Tracks(Apply(s, a, hash), Taken(a, taken), Current(a, taken, current))
  {
    hide WriterEnabled, WriterStep, CollectorEnabled, CollectorStep, ReaderEnabled, ReaderStep, Begin, BeginEnabled,
      Asks;
    if a.BeginSet? || a.BeginDelete? || a.BeginFlush? {
      BegunAsAsked(s, a, hash, taken, current);
    } else if WriterAction(a) {
      WriterTracks(s, s.writer.value, a, hash);
    } else {
      OthersTrack(s, a, hash);
    }
  }

  /** The published jobs are the served requests, one by one. */
  lemma {:induction false} JobsAsAsked(s: State, run: seq<Action>, hash: HashFn, taken: seq<Str>,
                                       current: Option<Request>)
    requires RunOk(s, run, hash) && Tracks(s, taken, current)
    ensures |Served(run, taken, current)| == |JobsOf(s, run, hash)|
    ensures forall i :: 0 <= i < |JobsOf(s, run, hash)| ==>
              Asks(Served(run, taken, current)[i], JobsOf(s, run, hash)[i])
    decreases |run|
  {
    hide WriterEnabled, Apply, Asks, Taken, Current;
    if run != [] {
      StepTracks(s, run[0], hash, taken, current);
      JobsAsAsked(Apply(s, run[0], hash), run[1..], hash, Taken(run[0], taken), Current(run[0], taken, current));
    }
  }

  // ---------- The store is the map of what was asked for ----------

  ghost function DataOf(m: map<Str, Cell>): map<Str, StorageEntry> {
    map k | k in m :: m[k].data
  }

  function DataSize(key: Str, e: StorageEntry): int {
    EntrySize(key, e.originalSize, e.value)
  }

  /** What a request makes of a map from keys to entries. */
  ghost function AfterRequest(m: map<Str, StorageEntry>, q: Request): map<Str, StorageEntry> {
    match q
    case SetRequest(key, d, cachedNow, _) =>
      m[key := StorageEntry(d.value, d.originalSize, d.ttl, d.createdAt, d.expiresAt, d.singleRead, 0, cachedNow)]
    case DeleteRequest(keys) => AfterDelete(m, AsSet(keys), DataSize)
  }

  ghost function AfterRequests(m: map<Str, StorageEntry>, qs: seq<Request>): map<Str, StorageEntry>
    decreases |qs|
  {
    if qs == [] then m else AfterRequests(AfterRequest(m, qs[0]), qs[1..])
  }

  lemma OneAgrees(m: map<Str, Cell>, q: Request, job: Job)
    requires Asks(q, job)
    ensures DataOf(AfterJob(job, m)) == AfterRequest(DataOf(m), q)
  {
    if job.Drop? {
      var keys := AsSet(job.keys);
      assert AllZero(m, keys, CellSize) <==> AllZero(DataOf(m), keys, DataSize) by {
        forall k | k in m
          ensures CellSize(k, m[k]) == DataSize(k, DataOf(m)[k])
        {
        }
      }
    }
  }

  lemma {:induction false} ReplayAgrees(m: map<Str, Cell>, qs: seq<Request>, jobs: seq<Job>)
    requires |qs| == |jobs| && forall i :: 0 <= i < |jobs| ==> Asks(qs[i], jobs[i])
    ensures DataOf(Replay(m, jobs)) == AfterRequests(DataOf(m), qs)
    decreases |jobs|
  {
    hide Asks, AfterJob, AfterRequest, DataOf;
    if jobs != [] {
      OneAgrees(m, qs[0], jobs[0]);
      ReplayAgrees(AfterJob(jobs[0], m), qs[1..], jobs[1..]);
    }
  }

  /** However steps interleave, the store holds, entry by entry and field by field, what the Sets and
      Deletes of the run make of an empty map, one after the other in the order of their publication. */
  lemma RunIsAtomicMap(s: State, run: seq<Action>, hash: HashFn)
    requires Initial(s, hash) && RunOk(s, run, hash)
    ensures DataOf(Stored(RunEnd(s, run, hash), hash)) == AfterRequests(map[], Served(run, [], None))
  {
    hide Enabled, Apply, Stored, Invariant, Asks, AfterJob;
    InitialInvariant(s, hash);
    RunReplaysJobs(s, run, hash);
    JobsAsAsked(s, run, hash, [], None);
    ReplayAgrees(map[], Served(run, [], None), JobsOf(s, run, hash));
    assert DataOf(map[]) == map[];
  }

  // ---------- What readers are given was asked for ----------

  /** Step b is the Set that stored this cell under the key. */
  ghost predicate SetAt(run: seq<Action>, b: nat, key: Str, c: Cell) {
    && b < |run| && run[b].BeginSet? && run[b].key == key && c.id == run[b].id
    && EntryFor(c.data, SetRequest(run[b].key, run[b].data, run[b].cachedNow, run[b].id))
  }

  /** A served Set is one of the run, or the one that held the lock before. */
  lemma {:induction false} ServedFrom(run: seq<Action>, taken: seq<Str>, current: Option<Request>, i: nat)
    returns (b: int)
    requires i < |Served(run, taken, current)| && Served(run, taken, current)[i].SetRequest?
    ensures b == -1 ==> current == Some(Served(run, taken, current)[i])
    ensures b != -1 ==>
              0 <= b < |run| && run[b].BeginSet? && Served(run, taken, current)[i] ==
              SetRequest(run[b].key, run[b].data, run[b].cachedNow, run[b].id)
    decreases |run|
  {
    var first := if run[0].Publish? && current.Some? then [current.value] else [];
    if i < |first| {
      b := -1;
    } else {
      b := ServedFrom(run[1..], Taken(run[0], taken), Current(run[0], taken, current), i - |first|);
      b := if b != -1 then b + 1 else if run[0].BeginSet? then 0 else -1;
    }
  }

  lemma {:induction false} ReplayedFrom(m: map<Str, Cell>, jobs: seq<Job>, k: Str) returns (i: int)
    requires k in Replay(m, jobs)
    ensures i == -1 ==> k in m && m[k] == Replay(m, jobs)[k]
    ensures i != -1 ==> 0 <= i < |jobs| && jobs[i] == Put(k, Replay(m, jobs)[k])
    decreases |jobs|
  {
    if jobs == [] {
      i := -1;
    } else {
      i := ReplayedFrom(AfterJob(jobs[0], m), jobs[1..], k);
      i := if i != -1 then i + 1 else if jobs[0].Put? && jobs[0].key == k then 0 else -1;
    }
  }

  /** Every stored entry is that of a Set of the run, for its key. */
  lemma StoredAsAsked(s: State, run: seq<Action>, hash: HashFn, k: Str) returns (b: nat)
    requires Initial(s, hash) && RunOk(s, run, hash) && k in Stored(RunEnd(s, run, hash), hash)
    ensures SetAt(run, b, k, Stored(RunEnd(s, run, hash), hash)[k])
  {
    hide Enabled, Apply, Stored, Invariant, AfterJob, EntryFor;
    InitialInvariant(s, hash);
    RunReplaysJobs(s, run, hash);
    JobsAsAsked(s, run, hash, [], None);
    var i := ReplayedFrom(map[], JobsOf(s, run, hash), k);
    b := ServedFrom(run, [], None, i);
  }

  /** The entry that a reader was or is about to be given is that of a Set of the run, for its key. */
  lemma GivenAsAsked(s: State, run: seq<Action>, hash: HashFn, id: nat) returns (b: nat)
    requires Initial(s, hash) && RunOk(s, run, hash)
    requires id in RunEnd(s, run, hash).readers && AnswerOf(RunEnd(s, run, hash).readers[id]).Some?
    ensures var r := RunEnd(s, run, hash).readers[id]; SetAt(run, b, r.key, AnswerOf(r).value)
  {
    hide Enabled, Apply, Stored, Invariant, EntryFor;
    InitialInvariant(s, hash);
    RunKeepsInvariant(s, run, hash);
    var n := SeenAtLoad(s, run, hash, id);
    AnswerAsSeen(RunEnd(s, run, hash), id, hash);
    b := StoredAsAsked(s, run[..n], hash, RunEnd(s, run, hash).readers[id].key);
  }

  lemma AnswerAsSeen(s: State, id: nat, hash: HashFn)
    requires Invariant(s, hash) && id in s.readers && AnswerOf(s.readers[id]).Some?
    ensures var r := s.readers[id]; r.key in r.seen && AnswerOf(r).value == r.seen[r.key]
  {
    hide MemoryOk, WriterOk, BytesOk, CountOk, CollectorInv, ServedOk, CoalescerOk, IndexOkAt, ViewAt, MapAt;
    assert ReaderOk(s.mem, s.readers[id], hash);
  }

  lemma IdsGrow(s: State, a: Action, hash: HashFn)
    requires Enabled(s, a, hash)
    ensures s.ids <= Apply(s, a, hash).ids && (a.BeginSet? ==> a.id !in s.ids && a.id in Apply(s, a, hash).ids)
  {
    hide WriterEnabled, WriterStep, CollectorEnabled, CollectorStep, ReaderEnabled, ReaderStep, SlotOf;
    if WriterAction(a) {
      WriterIds(s, s.writer.value, a, hash);
    } else if !a.BeginSet? && !a.BeginDelete? && !a.BeginFlush? {
      OtherIds(s, a, hash);
    }
  }

  lemma WriterIds(s: State, w: Writer, a: Action, hash: HashFn)
    requires WriterAction(a) && WriterEnabled(s, w, a)
    ensures WriterStep(s, w, a, hash).ids == s.ids
  {
    hide KeyEnded, JobScheduled, W.Shape, SegOk, Splits, Effect, SegAt, SlotOf, EditFits, DeltaChange;
  }

  lemma OtherIds(s: State, a: Action, hash: HashFn)
    requires Enabled(s, a, hash) && !WriterAction(a) && !a.BeginSet? && !a.BeginDelete? && !a.BeginFlush?
    ensures Apply(s, a, hash).ids == s.ids
  {
    hide N.Drain, W.Advance, W.Expired, W.Shape, SegAt, SlotOf, Stored, AccessCount, Less;
  }

  lemma {:induction false} IdNotAgain(s: State, run: seq<Action>, hash: HashFn, id: nat, b: nat)
    requires RunOk(s, run, hash) && id in s.ids && b < |run| && run[b].BeginSet?
    ensures run[b].id != id
    decreases |run|
  {
    hide Enabled, Apply;
    IdsGrow(s, run[0], hash);
    if b > 0 {
      IdNotAgain(Apply(s, run[0], hash), run[1..], hash, id, b - 1);
    }
  }

  /** No two Sets of a run allocate the same cell. */
  lemma {:induction false} IdsDiffer(s: State, run: seq<Action>, hash: HashFn, b: nat, d: nat)
    requires RunOk(s, run, hash) && b < d < |run| && run[b].BeginSet? && run[d].BeginSet?
    ensures run[b].id != run[d].id
    decreases |run|
  {
    hide Enabled, Apply;
    IdsGrow(s, run[0], hash);
    if b == 0 {
      IdNotAgain(Apply(s, run[0], hash), run[1..], hash, run[0].id, d - 1);
    } else {
      IdsDiffer(Apply(s, run[0], hash), run[1..], hash, b - 1, d - 1);
    }
  }

  /** The reader was or is about to be given the entry of the Set in step b. */
  ghost predicate GivenEntryOf(s: State, id: nat, cell: nat) {
    id in s.readers && AnswerOf(s.readers[id]).Some? && AnswerOf(s.readers[id]).value.id == cell
  }

  /** Of all Gets of a run, on whatever snapshots, at most one is given the entry of one Set that asked
      for a single read. */
  lemma SingleReadServedOnce(s: State, run: seq<Action>, hash: HashFn, b: nat, i: nat, j: nat)
    requires Initial(s, hash) && RunOk(s, run, hash) && b < |run| && run[b].BeginSet? && run[b].data.singleRead
    requires GivenEntryOf(RunEnd(s, run, hash), i, run[b].id) && GivenEntryOf(RunEnd(s, run, hash), j, run[b].id)
    ensures i == j
  {
    hide Enabled, Apply, Initial;
    var r := RunEnd(s, run, hash);
    var bi := GivenAsAsked(s, run, hash, i);
    var bj := GivenAsAsked(s, run, hash, j);
    SameSet(s, run, hash, b, bi);
    SameSet(s, run, hash, b, bj);
    OneHolder(s, run, hash, i, j, AnswerOf(r.readers[i]).value);
  }

  lemma SameSet(s: State, run: seq<Action>, hash: HashFn, b: nat, d: nat)
    requires RunOk(s, run, hash) && b < |run| && d < |run| && run[b].BeginSet? && run[d].BeginSet?
    requires run[b].id == run[d].id
    ensures b == d
  {
    hide Enabled, Apply;
    if b < d {
      IdsDiffer(s, run, hash, b, d);
    } else if d < b {
      IdsDiffer(s, run, hash, d, b);
    }
  }

  // ---------- Schedules and ticks ----------

  /** When a Set is through with its Schedule, its key is scheduled if it has a ttl, and nothing is
      scheduled for it if it has none. */
  lemma ScheduledAfterSet(s: State, w: Writer, clk: CM.Clock, hash: HashFn)
    requires Invariant(s, hash) && s.writer == Some(w) && w.job.Put? && Enabled(s, Schedule(clk), hash)
    ensures CM.ScheduledAsAsked(GcOf(Apply(s, Schedule(clk), hash)), w.job.key, w.job.cell.data.ttl)
  {
    hide MemoryOk, WriterOk, BytesOk, CountOk, ReadersOk, ServedOk, CoalescerOk, Stored, CM.CollectorOk, CM.Schedule,
      CM.Unscheduled, W.Shape;
    CM.SchedulesAsAsked(GcOf(s), w.job.key, w.job.cell.data.ttl, w.job.cell.data.createdAt, clk);
    SameSchedule(JobScheduled(s, w, clk).value, GcOf(Apply(s, Schedule(clk), hash)), w.job.key, w.job.cell.data.ttl);
  }

  lemma SameSchedule(c: CM.Collector, d: CM.Collector, key: Str, ttl: int)
    requires CM.ScheduledAsAsked(c, key, ttl) && d.wheel == c.wheel && d.near == c.near
    ensures CM.ScheduledAsAsked(d, key, ttl)
  {
  }

  /** A tick of the wheel finds exactly the keys whose timer fires, each once. */
  lemma WheelTickFinds(s: State, wallMs: int, hash: HashFn, key: Str)
    requires Invariant(s, hash) && Enabled(s, WheelTick(wallMs), hash)
    ensures W.WheelOk(s.wheel)
    ensures var found := Apply(s, WheelTick(wallMs), hash).ticked;
            found.Some? && NoDuplicates(found.value) && (key in found.value <==> E.Fires(s.wheel, key, wallMs))
  {
    hide MemoryOk, WriterOk, BytesOk, CountOk, ReadersOk, ServedOk, CoalescerOk, Stored, W.WheelOk, W.Expired,
      W.Advance, E.Fires;
    W.AdvanceKeepsOk(s.wheel, wallMs);
    E.WheelTickHandsOver(GcOf(s).(pending := {}), wallMs, key);
  }

  /** A tick of the near queue finds exactly the keys with a due entry on the heap. */
  lemma NearTickFinds(s: State, cachedNow: int, hash: HashFn, key: Str)
    requires Invariant(s, hash) && Enabled(s, NearTick(cachedNow), hash)
    ensures var found := Apply(s, NearTick(cachedNow), hash).ticked;
            found.Some? &&
            (key in found.value <==>
             exists x :: (key, x) in N.Bag(s.near.heap) && DeadlineMs(x) <= DeadlineMs(cachedNow))
  {
    hide MemoryOk, WriterOk, BytesOk, CountOk, ReadersOk, ServedOk, CoalescerOk, Stored, CM.CollectorOk, N.Drain, N.Bag,
      NearOk;
    E.NearTickHandsOver(GcOf(s).(pending := {}), cachedNow, key);
    KeysListed(N.Drain(s.near, DeadlineMs(cachedNow), false).1, key);
  }

  lemma KeysListed(popped: seq<N.NearEntry>, key: Str)
    ensures key in seq(|popped|, i requires 0 <= i < |popped| => popped[i].key) <==>
            exists e :: e in popped && e.key == key
  {
    var keys := seq(|popped|, i requires 0 <= i < |popped| => popped[i].key);
    assert forall i :: 0 <= i < |popped| ==> keys[i] == popped[i].key && popped[i] in popped;
  }
}
