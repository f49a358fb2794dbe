/** What holds over whole runs of the machine, from the empty store on. */
module StoreRuns {
  import opened GoTypes
  import opened KeyOrder
  import opened SegmentIndex
  import opened BatchDelete
  import opened StoreSteps
  import opened StoreInvariant
  import opened StoreKeeps
  import opened StoreCounters
  import opened StoreWheel
  import opened StoreReaders
  import CM = CollectorModel
  import W = WheelModel

  lemma StepKeepsInvariant(s: State, a: Action, hash: HashFn)
    requires Enabled(s, a, hash) && Invariant(s, hash)
    ensures Invariant(Apply(s, a, hash), hash)
  {
    hide MemoryOk, WriterOk, BytesOk, CountOk, CollectorInv, ReadersOk, ServedOk, CoalescerOk, Enabled, Apply;
    MemoryKept(s, a, hash);
    WriterKept(s, a, hash);
    BytesKept(s, a, hash);
    CountKept(s, a, hash);
    CollectorKept(s, a, hash);
    ReadersKept(s, a, hash);
    ServedKept(s, a, hash);
    CoalescerKept(s, a, hash);
  }

  lemma {:induction false} RunKeepsInvariant(s: State, run: seq<Action>, hash: HashFn)
    requires RunOk(s, run, hash) && Invariant(s, hash)
    ensures Invariant(RunEnd(s, run, hash), hash)
    decreases |run|
  {
    hide Invariant, Enabled, Apply;
    if run != [] {
      StepKeepsInvariant(s, run[0], hash);
      RunKeepsInvariant(Apply(s, run[0], hash), run[1..], hash);
    }
  }

  lemma EmptyView(m: Memory, hash: HashFn)
    requires m == Memory(map[0 := seq(SEGMENTS, _ => 0)], map[0 := Seg([], [])])
    ensures IndexOkAt(m, 0, hash) && MapAt(m, 0, hash) == map[]
    ensures BytesOf(ViewAt(m, 0), hash, CellSize) == 0 && KeyTotal(ViewAt(m, 0)) == 0
  {
    var v := ViewAt(m, 0);
    assert forall i :: 0 <= i < SEGMENTS ==> v[i] == Seg([], []);
    EmptyTotals(v, CellSize);
  }

  lemma InitialInvariant(s: State, hash: HashFn)
    requires Initial(s, hash)
    ensures Invariant(s, hash) && Stored(s, hash) == map[]
  {
    EmptyView(s.mem, hash);
    hide IndexOkAt, ViewAt, W.WheelOk;
  }

  // ---------- Runs and their parts ----------

  /** The first steps of a run, after its first step. */
  lemma PrefixShift(s: State, run: seq<Action>, hash: HashFn, n: nat)
    requires RunOk(s, run, hash) && n < |run| && RunOk(Apply(s, run[0], hash), run[1..][..n], hash)
    ensures RunOk(s, run[..n + 1], hash)
    ensures RunEnd(s, run[..n + 1], hash) == RunEnd(Apply(s, run[0], hash), run[1..][..n], hash)
  {
    hide Enabled, Apply;
    assert run[..n + 1][0] == run[0] && run[..n + 1][1..] == run[1..][..n];
  }

  lemma {:induction false} RunSplits(s: State, run: seq<Action>, hash: HashFn, n: nat)
    requires RunOk(s, run, hash) && n <= |run|
    ensures RunOk(s, run[..n], hash) && RunOk(RunEnd(s, run[..n], hash), run[n..], hash)
    ensures RunEnd(RunEnd(s, run[..n], hash), run[n..], hash) == RunEnd(s, run, hash)
    decreases n
  {
    hide Enabled, Apply;
    if n == 0 {
      assert run[..0] == [] && run[0..] == run;
    } else {
      RunSplits(Apply(s, run[0], hash), run[1..], hash, n - 1);
      PrefixShift(s, run, hash, n - 1);
      assert run[n..] == run[1..][n - 1..];
    }
  }

  // ---------- Snapshots ----------

  /** A reader that holds an old index goes on seeing the same keys and the same entry pointers. */
  lemma {:induction false} SnapshotsAreImmutable(s: State, run: seq<Action>, hash: HashFn, x: nat)
    requires RunOk(s, run, hash) && Invariant(s, hash) && x in s.published
    ensures Same(s.mem, RunEnd(s, run, hash).mem, x) && x in RunEnd(s, run, hash).published
    decreases |run|
  {
    hide Enabled, Apply, ViewAt, Known, WriterOk, BytesOk, CountOk, CollectorInv, ReadersOk, ServedOk, CoalescerOk;
    if run == [] {
      assert IndexOkAt(s.mem, x, hash);
    } else {
      PublishedUnchanged(s, run[0], hash, x);
      StepKeepsInvariant(s, run[0], hash);
      SnapshotsAreImmutable(Apply(s, run[0], hash), run[1..], hash, x);
    }
  }

  // ---------- The store as one atomic map ----------

  /** The jobs that were published, in that order. */
  ghost function JobsOf(s: State, run: seq<Action>, hash: HashFn): seq<Job>
    requires RunOk(s, run, hash)
    decreases |run|
  {
    if run == [] then [] else
      (if run[0].Publish? then [s.writer.value.job] else []) + JobsOf(Apply(s, run[0], hash), run[1..], hash)
  }

  ghost function Replay(m: map<Str, Cell>, jobs: seq<Job>): map<Str, Cell>
    decreases |jobs|
  {
    if jobs == [] then m else Replay(AfterJob(jobs[0], m), jobs[1..])
  }

  /** However steps interleave, the store holds what its jobs make of a map one after the other. */
  lemma {:induction false} RunReplaysJobs(s: State, run: seq<Action>, hash: HashFn)
    requires RunOk(s, run, hash) && Invariant(s, hash)
    ensures Stored(RunEnd(s, run, hash), hash) == Replay(Stored(s, hash), JobsOf(s, run, hash))
    decreases |run|
  {
    hide WriterEnabled, BeginEnabled, ReaderEnabled, CollectorEnabled, Apply, Stored, MemoryOk, WriterOk, BytesOk,
      CountOk,
      CollectorInv, ReadersOk, ServedOk, CoalescerOk, AfterJob;
    if run != [] {
      var r := Apply(s, run[0], hash);
      StoredChangesAtPublish(s, run[0], hash);
      StepKeepsInvariant(s, run[0], hash);
      RunReplaysJobs(r, run[1..], hash);
      var rest := JobsOf(r, run[1..], hash);
      if run[0].Publish? {
        var job := s.writer.value.job;
        assert ([job] + rest)[0] == job && ([job] + rest)[1..] == rest;
      } else {
        assert JobsOf(s, run, hash) == rest;
      }
    }
  }

  // ---------- Readers ----------

  /** The first step of a reader. */
  predicate Starts(a: Action, id: nat) {
    (a.Load? || a.LoadKeys?) && a.r == id
  }

  predicate Lists(r: Reader) {
    r.phase.Listing? || r.phase.Listed?
  }

  lemma {:induction false} ReaderStays(s: State, run: seq<Action>, hash: HashFn, id: nat)
    requires RunOk(s, run, hash) && id in s.readers
    ensures var r := RunEnd(s, run, hash);
            id in r.readers && r.readers[id].seen == s.readers[id].seen && r.readers[id].key == s.readers[id].key &&
            r.readers[id].isGet == s.readers[id].isGet && (Lists(r.readers[id]) <==> Lists(s.readers[id]))
    decreases |run|
  {
    hide Enabled, Apply;
    if run != [] {
      ReaderKeepsSeen(s, run[0], hash, id);
      ReaderStays(Apply(s, run[0], hash), run[1..], hash, id);
    }
  }

  lemma ReaderKeepsSeen(s: State, a: Action, hash: HashFn, id: nat)
    requires Enabled(s, a, hash) && id in s.readers
    ensures var r := Apply(s, a, hash);
            id in r.readers && r.readers[id].seen == s.readers[id].seen && r.readers[id].key == s.readers[id].key &&
            r.readers[id].isGet == s.readers[id].isGet && (Lists(r.readers[id]) <==> Lists(s.readers[id]))
  {
    hide WriterEnabled, WriterStep, CollectorEnabled, CollectorStep, Begin, ReaderEnabled, ReaderStep;
    if WriterAction(a) {
      WriterNotTouches(s, s.writer.value, a, hash);
    } else if a.BeginSet? || a.BeginDelete? || a.BeginFlush? {
      BeginNotTouches(s, a, hash);
    } else if ReaderAction(a) {
      MoverKeepsSeen(s, a, hash, id);
    } else {
      CollectorReaders(s, a);
    }
  }

  lemma MoverKeepsSeen(s: State, a: Action, hash: HashFn, id: nat)
    requires ReaderAction(a) && ReaderEnabled(s, a) && id in s.readers
    ensures var r := ReaderStep(s, a, hash);
            id in r.readers && r.readers[id].seen == s.readers[id].seen && r.readers[id].key == s.readers[id].key &&
            r.readers[id].isGet == s.readers[id].isGet && (Lists(r.readers[id]) <==> Lists(s.readers[id]))
  {
    hide SegAt, SlotOf, Less, Stored, AccessCount, ProbeAt, StepTouch;
    if a.Touch? {
      TouchKeepsSeen(s, a.r, a.cachedNow, id);
    }
  }

  lemma TouchKeepsSeen(s: State, r: nat, cachedNow: int, id: nat)
    requires r in s.readers && s.readers[r].phase.Live? && id in s.readers
    ensures var t := StepTouch(s, r, cachedNow);
            id in t.readers && t.readers[id].seen == s.readers[id].seen && t.readers[id].key == s.readers[id].key &&
            t.readers[id].isGet == s.readers[id].isGet && (Lists(t.readers[id]) <==> Lists(s.readers[id]))
  {
    hide AccessCount, Moved;
    forall phase
      ensures Moved(s, r, phase).readers == s.readers[r := s.readers[r].(phase := phase)]
    {
      MovedReaders(s, r, phase);
    }
  }

  lemma MovedReaders(s: State, r: nat, phase: Phase)
    requires r in s.readers
    ensures Moved(s, r, phase).readers == s.readers[r := s.readers[r].(phase := phase)]
  {
  }

  lemma CollectorReaders(s: State, a: Action)
    requires CollectorEnabled(s, a)
    ensures CollectorStep(s, a).readers == s.readers
  {
  }

  /** What a reader saw is the contents of the store at one moment of the run: its load. */
  lemma {:induction false} SeenAtLoad(s: State, run: seq<Action>, hash: HashFn, id: nat) returns (n: nat)
    requires RunOk(s, run, hash) && id !in s.readers && id in RunEnd(s, run, hash).readers
    ensures n < |run| && RunOk(s, run[..n], hash) && Starts(run[n], id)
    ensures var r := RunEnd(s, run, hash).readers[id];
            r.seen == Stored(RunEnd(s, run[..n], hash), hash) && (run[n].LoadKeys? <==> Lists(r)) &&
            (run[n].Load? ==> run[n].key == r.key && run[n].isGet == r.isGet)
    decreases |run|
  {
    hide Apply, Stored, WriterEnabled, CollectorEnabled;
    var a := run[0];
    var r := Apply(s, a, hash);
    if Starts(a, id) {
      n := 0;
      LoadSees(s, a, hash);
      ReaderStays(r, run[1..], hash, id);
    } else {
      NotYetThere(s, a, hash, id);
      var m := SeenAtLoad(r, run[1..], hash, id);
      n := m + 1;
      assert run[..n][0] == a && run[..n][1..] == run[1..][..m];
    }
  }

  lemma LoadSees(s: State, a: Action, hash: HashFn)
    requires (a.Load? || a.LoadKeys?) && Enabled(s, a, hash)
    ensures var r := Apply(s, a, hash);
            a.r in r.readers && r.readers[a.r].seen == Stored(s, hash) &&
            if a.LoadKeys? then r.readers[a.r].phase == Listing(0, []) else
              r.readers[a.r].key == a.key && r.readers[a.r].isGet == a.isGet && r.readers[a.r].phase == Loaded
  {
  }

  lemma NotYetThere(s: State, a: Action, hash: HashFn, id: nat)
    requires Enabled(s, a, hash) && id !in s.readers && !Starts(a, id)
    ensures id !in Apply(s, a, hash).readers
  {
    OnlyOneMoves(s, a, hash);
    hide WriterEnabled, WriterStep, CollectorEnabled, CollectorStep, Begin, SegAt, SlotOf, Less, Stored;
  }

  // ---------- Single reads ----------

  lemma {:induction false} RunKeepsAnswers(s: State, run: seq<Action>, hash: HashFn)
    requires RunOk(s, run, hash) && ServedOk(s) && AnswersOk(s)
    ensures ServedOk(RunEnd(s, run, hash)) && AnswersOk(RunEnd(s, run, hash))
    decreases |run|
  {
    hide ServedOk, AnswersOk, Enabled, Apply;
    if run != [] {
      ServedKept(s, run[0], hash);
      AnswersKept(s, run[0], hash);
      RunKeepsAnswers(Apply(s, run[0], hash), run[1..], hash);
    }
  }

  /** Of all Gets of a run, on whatever snapshots, at most one is given the same single-read entry. */
  lemma OneHolder(s: State, run: seq<Action>, hash: HashFn, i: nat, j: nat, c: Cell)
    requires Initial(s, hash) && RunOk(s, run, hash) && c.data.singleRead
    requires Holds(RunEnd(s, run, hash), i, c) && Holds(RunEnd(s, run, hash), j, c)
    ensures i == j
  {
    hide Enabled, Apply;
    RunKeepsAnswers(s, run, hash);
  }

  // ---------- Nobody gets stuck ----------

  lemma {:induction false} SplitExists(keys: seq<Str>, target: Str) returns (i: nat)
    requires StrictlySorted(keys)
    ensures Splits(keys, target, i)
  {
    i := 0;
    if keys != [] {
      var n := |keys| - 1;
      i := SplitExists(keys[..n], target);
      if i == n && Less(keys[n], target) {
        i := n + 1;
      } else if i < n {
        if Less(keys[n], target) {
          LessTransitive(keys[i], keys[n], target);
        }
      }
    }
  }

  /** The conditions under which the writer's steps are defined never stop it: in every reachable
      state in which the lock is held, its holder has a next step. */
  lemma WriterCanMove(s: State, hash: HashFn, unused: nat) returns (a: Action)
    requires Invariant(s, hash) && s.writer.Some? && unused !in s.mem.segs
    ensures WriterAction(a) && Enabled(s, a, hash)
  {
    hide MemoryOk, BytesOk, CountOk, ReadersOk, ServedOk, CoalescerOk, WriterView, WriterMemory, WriterKeys,
      W.WheelOk, W.Shape, WriterEnabled;
    WheelShaped(s.wheel);
    a := HolderCanMove(s, s.writer.value, hash, unused);
  }

  lemma HolderCanMove(s: State, w: Writer, hash: HashFn, unused: nat) returns (a: Action)
    requires s.writer == Some(w) && unused !in s.mem.segs && W.Shape(s.wheel)
    requires WriterMemory(s, w) && WriterView(s, w, hash)
    ensures WriterAction(a) && WriterEnabled(s, w, a)
  {
    hide WriterView, WriterMemory, W.Shape, JobScheduled;
    match w.stage
    case Published => a := Account;
    case Accounted =>
      var clk := CM.Clock(0, 0, 0);
      a := if JobScheduled(s, w, clk).Ok? then Schedule(clk) else SchedulePanics(clk);
    case Finished => a := Unlock;
    case Building =>
      if w.group.Some? {
        a := GroupCanMove(s, w, hash);
      } else if si: nat :| si in w.todo {
        a := CopySegment(si, unused);
      } else {
        assert w.todo == {};
        a := Publish;
      }
  }

  // The measure of what the lock holder still has to do, outermost part first.

  function StageRank(s: State): nat {
    if s.writer.None? then 0 else
      match s.writer.value.stage { case Building => 4 case Published => 3 case Accounted => 2 case Finished => 1 }
  }

  function TodoRank(s: State): nat {
    if s.writer.None? then 0 else |s.writer.value.todo|
  }

  function GroupRank(s: State): nat {
    if s.writer.None? || s.writer.value.group.Some? then 0 else 1
  }

  function LeftRank(s: State): nat {
    if s.writer.None? || s.writer.value.group.None? then 0 else |s.writer.value.group.value.left|
  }

  function EditRank(s: State): nat {
    if s.writer.None? || s.writer.value.group.None? then 0 else
      match s.writer.value.group.value.edit {
        case Idle => 3
        case Editing(step, _, _, _) => if step.KeysDone? then 2 else if step.ValsDone? then 1 else 0
      }
  }

  ghost predicate Closer(r: State, s: State) {
    StageRank(r) < StageRank(s) || (StageRank(r) == StageRank(s) && (
      TodoRank(r) < TodoRank(s) || (TodoRank(r) == TodoRank(s) && (
        GroupRank(r) < GroupRank(s) || (GroupRank(r) == GroupRank(s) && (
          LeftRank(r) < LeftRank(s) || (LeftRank(r) == LeftRank(s) && EditRank(r) < EditRank(s))))))))
  }

  lemma StepGetsCloser(s: State, w: Writer, a: Action, hash: HashFn)
    requires s.writer == Some(w) && WriterAction(a) && WriterEnabled(s, w, a)
    requires w.stage.Building? && w.group.Some? ==> w.group.value.si in w.todo
    ensures Closer(WriterStep(s, w, a, hash), s)
  {
    hide SegOk, Splits, Effect, KeyEnded, JobScheduled, W.Shape, SegAt, EditFits, DeltaChange, SlotOf, Closer;
    if a.Install? {
      InstallGetsCloser(s, w, hash);
    } else if a.EditKeys? {
      EditGetsCloser(s, w, a.i, hash);
    } else {
      OthersGetCloser(s, w, a, hash);
    }
  }

  lemma InstallGetsCloser(s: State, w: Writer, hash: HashFn)
    requires s.writer == Some(w) && WriterEnabled(s, w, Install) && w.group.value.si in w.todo
    ensures Closer(WriterStep(s, w, Install, hash), s)
  {
    assert |w.todo - {w.group.value.si}| == |w.todo| - 1;
  }

  lemma EditGetsCloser(s: State, w: Writer, i: nat, hash: HashFn)
    requires s.writer == Some(w) && WriterEnabled(s, w, EditKeys(i))
    ensures Closer(WriterStep(s, w, EditKeys(i), hash), s)
  {
    hide SegOk, Splits, Effect;
  }

  lemma OthersGetCloser(s: State, w: Writer, a: Action, hash: HashFn)
    requires s.writer == Some(w) && WriterAction(a) && WriterEnabled(s, w, a) && !a.Install? && !a.EditKeys?
    ensures Closer(WriterStep(s, w, a, hash), s)
  {
    hide SegOk, Effect, KeyEnded, JobScheduled, W.Shape, SegAt, EditFits, DeltaChange;
  }

  lemma {:induction false} Unused(used: set<nat>) returns (id: nat)
    ensures forall x: nat :: x in used ==> x < id
    decreases used
  {
    id := 0;
    if x: nat :| x in used {
      var m := Unused(used - {x});
      id := if m <= x then x + 1 else m;
      forall y: nat | y in used
        ensures y < id
      {
        assert y == x || y in used - {x};
      }
    }
  }

  lemma HolderGroup(s: State, hash: HashFn)
    requires Invariant(s, hash) && s.writer.Some?
    ensures var w := s.writer.value; w.stage.Building? && w.group.Some? ==> w.group.value.si in w.todo
  {
    hide MemoryOk, BytesOk, CountOk, CollectorInv, ReadersOk, ServedOk, CoalescerOk, WriterMemory, WriterView,
      GroupKeysOk, JobKeys;
  }

  /** Whoever holds the lock can finish and release it by steps of its own alone, from every reachable
      state; a run that lets it go on is never blocked. */
  lemma {:induction false} WriterCanFinish(s: State, hash: HashFn) returns (run: seq<Action>)
    requires Invariant(s, hash)
    ensures (forall a :: a in run ==> WriterAction(a)) && RunOk(s, run, hash) && RunEnd(s, run, hash).writer.None?
    decreases StageRank(s), TodoRank(s), GroupRank(s), LeftRank(s), EditRank(s)
  {
    hide Invariant, Enabled, Apply, StageRank, TodoRank, GroupRank, LeftRank, EditRank;
    run := [];
    if s.writer.Some? {
      var unused := Unused(s.mem.segs.Keys);
      var a := WriterCanMove(s, hash, unused);
      StepKeepsInvariant(s, a, hash);
      WriterCloser(s, a, hash);
      var rest := WriterCanFinish(Apply(s, a, hash), hash);
      run := [a] + rest;
      assert run[1..] == rest;
    }
  }

  lemma WriterCloser(s: State, a: Action, hash: HashFn)
    requires Invariant(s, hash) && s.writer.Some? && WriterAction(a) && Enabled(s, a, hash)
    ensures Closer(Apply(s, a, hash), s)
  {
    hide Invariant, Closer, WriterStep, WriterEnabled;
    HolderGroup(s, hash);
    StepGetsCloser(s, s.writer.value, a, hash);
  }

  lemma WheelShaped(w: W.Wheel)
    requires W.WheelOk(w)
    ensures W.Shape(w)
  {
  }

  lemma GroupCanMove(s: State, w: Writer, hash: HashFn) returns (a: Action)
    requires s.writer == Some(w) && w.stage.Building? && w.group.Some? && WriterMemory(s, w) && WriterView(s, w, hash)
    requires W.Shape(s.wheel)
    ensures WriterAction(a) && WriterEnabled(s, w, a)
  {
    hide IndexWork, ViewAt, Effect, W.Shape, Private, KeyEnded;
    var g := w.group.value;
    match g.edit
    case Editing(step, _, _, _) =>
      a := if step.KeysDone? then EditVals else if step.ValsDone? then CountKey
      else if KeyEnded(s, w).Ok? then EndKey else CancelPanics;
    case Idle =>
      if g.left == [] {
        a := Install;
      } else {
        var i := SplitExists(s.mem.segs[g.seg].keys, g.left[0]);
        a := EditKeys(i);
      }
  }

  lemma SearcherCanMove(s: State, hash: HashFn, id: nat) returns (a: Action)
    requires id in s.readers && s.readers[id].phase.Searching? && ReaderOk(s.mem, s.readers[id], hash)
    ensures ReaderAction(a) && a.r == id && Enabled(s, a, hash)
  {
    hide ViewAt, ViewOk, SegAt, MapAt, Known, StrictlySorted;
    var r := s.readers[id];
    ViewIs(s.mem, r.idx, r.phase.si);
    SegmentSorted(ViewAt(s.mem, r.idx), hash, r.phase.si);
    a := if r.phase.lo < r.phase.hi then Probe(id) else EndSearch(id);
  }

  /** So does every reader that is not done, without waiting for anyone. */
  lemma ReaderCanMove(s: State, hash: HashFn, id: nat) returns (a: Action)
    requires Invariant(s, hash) && id in s.readers && !s.readers[id].phase.Done? && !s.readers[id].phase.Listed?
    ensures ReaderAction(a) && a.r == id && Enabled(s, a, hash)
  {
    hide MemoryOk, WriterOk, BytesOk, CountOk, CollectorInv, ServedOk, CoalescerOk, ReaderOk, SegAt;
    var r := s.readers[id];
    assert ReaderOk(s.mem, r, hash);
    match r.phase
    case Loaded => a := LoadAgain(id);
    case Searching(_, _, _) => a := SearcherCanMove(s, hash, id);
    case Found(_) => a := Look(id, 0);
    case Live(_) => a := Touch(id, 0);
    case Doomed(_, _) => a := RequestDelete(id);
    case Listing(_, _) => a := ListSegment(id);
  }

  // ---------- The wheel and the coalescer ----------

  /** At every moment of every run, with ticks anywhere: what is scheduled is stored, and once a delete
      is through with its keys none of them is on the wheel, in its index or in any slot, or in the
      near queue's map. */
  lemma CollectorOverRuns(s: State, run: seq<Action>, hash: HashFn)
    requires Initial(s, hash) && RunOk(s, run, hash)
    ensures var r := RunEnd(s, run, hash);
            CM.CollectorOk(GcOf(r)) && Scheduled(r) <= Stored(r, hash).Keys &&
            (r.writer.Some? && r.writer.value.job.Drop? && !r.writer.value.stage.Building? ==>
               forall k :: k in r.writer.value.job.keys ==>
                 k !in Scheduled(r) && forall i :: 0 <= i < |r.wheel.slots| ==> !W.HasKey(r.wheel.slots[i], k))
  {
    InitialInvariant(s, hash);
    RunKeepsInvariant(s, run, hash);
    var r := RunEnd(s, run, hash);
    hide Stored, MemoryOk, WriterOk, BytesOk, CountOk, ReadersOk, ServedOk, CoalescerOk, Enabled, Apply;
    if r.writer.Some? && r.writer.value.job.Drop? && !r.writer.value.stage.Building? {
      forall k, i | k in r.writer.value.job.keys && 0 <= i < |r.wheel.slots|
        ensures k !in Scheduled(r) && !W.HasKey(r.wheel.slots[i], k)
      {
        assert k in AsSet(r.writer.value.job.keys);
      }
    }
  }

  /** At every moment of every run: the keys that were ever enqueued are those that are pending, in
      flight, or were handed over at some time, and a flush holds each of its keys once. */
  lemma CoalescerOverRuns(s: State, run: seq<Action>, hash: HashFn)
    requires Initial(s, hash) && RunOk(s, run, hash)
    ensures var r := RunEnd(s, run, hash);
            r.enqueued == r.pending + InFlight(r) + r.handed &&
            (r.inFlight.Some? ==> NoDuplicates(r.inFlight.value))
  {
    InitialInvariant(s, hash);
    RunKeepsInvariant(s, run, hash);
    hide MemoryOk, WriterOk, BytesOk, CountOk, CollectorInv, ReadersOk, ServedOk, Enabled, Apply;
  }
}
