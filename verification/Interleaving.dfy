/** The store as a machine whose steps interleave: one writer under the lock, any number of
    readers without it, the two tickers of the garbage collector and the flusher of the
    coalescer. A panic of the near queue frees the lock and ends the job. Memory is explicit, so
    that what a writer changes in place and what a reader looks at are told apart by their
    identities only. */
module StoreSteps {
  import opened GoTypes
  import opened KeyOrder
  import opened SegmentIndex
  import opened BatchDelete
  import opened Entries
  import CM = CollectorModel
  import N = NearModel
  import W = WheelModel

  /** A *entry: its identity and the fields that no one changes once it is shared. */
  datatype Cell = Cell(id: nat, data: StorageEntry)

  function CellSize(key: Str, c: Cell): (n: int)
    ensures n >= 0
    ensures n == 0 ==> key == []
  {
    EntrySize(key, c.data.originalSize, c.data.value)
  }

  /** Index objects, each a list of segment identities, and the arrays of the segments. */
  datatype Memory = Memory(indexes: map<nat, seq<nat>>, segs: map<nat, Seg<Cell>>)

  // ---------- The writer ----------

  datatype Job = Put(key: Str, cell: Cell) | Drop(keys: seq<Str>)

  datatype EditStep = KeysDone | ValsDone | Counted

  /** Where the writer is with one key: the position its search found and the copy before the edit. */
  datatype Edit = Idle | Editing(step: EditStep, i: nat, found: bool, before: Seg<Cell>)

  /** The segment the writer works on: its copy, the keys left to do, and the keys done. */
  datatype Group = Group(si: nat, seg: nat, left: seq<Str>, done: set<Str>, edit: Edit, delta: int)

  datatype Stage = Building | Published | Accounted | Finished

  /** base is the index it loaded, index the one it builds, counted what it added to keyCount. */
  datatype Writer = Writer(job: Job, base: nat, index: nat, todo: set<nat>, group: Option<Group>,
                           done: set<Str>, delta: int, counted: int, stage: Stage)

  // ---------- Readers ----------

  datatype Phase =
    | Loaded
    | Searching(si: nat, lo: int, hi: int)
    | Found(cell: Cell)
    | Live(cell: Cell)
    | Doomed(cell: Cell, answer: Option<Cell>)
    | Done(present: bool, answer: Option<Cell>)
    | Listing(i: nat, keys: seq<Str>)
    | Listed(keys: seq<Str>)

  /** A Get or an Exists of a key, or a listing of all of them. seen is history: the contents of the
      store when it loaded the pointer. */
  datatype Reader = Reader(key: Str, isGet: bool, idx: nat, seen: map<Str, Cell>, phase: Phase)

  /** The fields from published on are history. */
  datatype State = State(
    mem: Memory, ptr: nat, touched: map<Cell, (int, int)>, usedBytes: int, keyCount: int, wheel: W.Wheel,
    near: N.Near, writer: Option<Writer>, readers: map<nat, Reader>,
    ticked: Option<seq<Str>>, pending: set<Str>, inFlight: Option<seq<Str>>,
    published: set<nat>, excess: int, ids: set<nat>, served: multiset<Cell>, enqueued: set<Str>, handed: set<Str>)

  // ---------- Views of the memory ----------

  ghost predicate Known(m: Memory, x: nat) {
    x in m.indexes && |m.indexes[x]| == SEGMENTS && forall i :: 0 <= i < SEGMENTS ==> m.indexes[x][i] in m.segs
  }

  function SegAt(m: Memory, x: nat, si: nat): Seg<Cell> {
    if x in m.indexes && si < |m.indexes[x]| &&
      m.indexes[x][si] in m.segs then m.segs[m.indexes[x][si]] else Seg([], [])
  }

  function ViewAt(m: Memory, x: nat): (v: seq<Seg<Cell>>)
    ensures |v| == SEGMENTS
  {
    seq(SEGMENTS, i requires 0 <= i => SegAt(m, x, i))
  }

  ghost predicate IndexOkAt(m: Memory, x: nat, hash: HashFn) {
    Known(m, x) && ViewOk(ViewAt(m, x), hash)
  }

  /** The map that index x stands for. */
  ghost function MapAt(m: Memory, x: nat, hash: HashFn): map<Str, Cell> {
    if IndexOkAt(m, x, hash) then MapOf(ViewAt(m, x), hash) else map[]
  }

  /** The abstract value of the store. */
  ghost function Stored(s: State, hash: HashFn): map<Str, Cell> {
    MapAt(s.mem, s.ptr, hash)
  }

  /** segmentIndexOf, on the index that the pointer shows at that moment. */
  function SlotOf(m: Memory, ptr: nat, hash: HashFn, key: Str): nat {
    if ptr in m.indexes && |m.indexes[ptr]| > 0 then hash(key) % |m.indexes[ptr]| else 0
  }

  // ---------- What one key does to a segment ----------

  function Select(keys: seq<Str>, m: Memory, ptr: nat, hash: HashFn, si: nat): seq<Str> {
    if keys == [] then [] else
      (if SlotOf(m, ptr, hash, keys[0]) == si then [keys[0]] else []) + Select(keys[1..], m, ptr, hash, si)
  }

  function KeysOfGroup(job: Job, m: Memory, ptr: nat, hash: HashFn, si: nat): seq<Str> {
    match job
    case Put(key, _) => [key]
    case Drop(keys) => Select(keys, m, ptr, hash, si)
  }

  /** The segment after the edit of one key. */
  function Effect(job: Job, b: Seg<Cell>, i: nat): Seg<Cell>
    requires |b.keys| == |b.vals| && i <= |b.keys| && (job.Drop? ==> i < |b.keys|)
  {
    match job
    case Put(key, cell) => SegPut(b, i, key, cell)
    case Drop(_) => SegDelete(b, i)
  }

  function CountChange(job: Job, found: bool): int {
    if job.Drop? then -1 else if found then 0 else 1
  }

  function DeltaChange(job: Job, key: Str, b: Seg<Cell>, i: nat, found: bool): int
    requires found ==> i < |b.vals|
  {
    (if job.Put? then CellSize(key, job.cell) else 0) - if found then CellSize(key, b.vals[i]) else 0
  }

  // ---------- Steps ----------

  datatype Action =
    | BeginSet(key: Str, data: StorageEntry, cachedNow: int, id: nat, index: nat)
    | BeginDelete(keys: seq<Str>, index: nat)
    | BeginFlush(index: nat)
    | CopySegment(si: nat, seg: nat)
    | EditKeys(i: nat)
    | EditVals
    | CountKey
    | EndKey
    | Install
    | Publish
    | Account
    | Schedule(clk: CM.Clock)
    | Unlock
    | CancelPanics
    | SchedulePanics(clk: CM.Clock)
    | Load(r: nat, key: Str, isGet: bool)
    | LoadAgain(r: nat)
    | Probe(r: nat)
    | EndSearch(r: nat)
    | Look(r: nat, now: int)
    | Touch(r: nat, cachedNow: int)
    | RequestDelete(r: nat)
    | LoadKeys(r: nat)
    | ListSegment(r: nat)
    | WheelTick(wallMs: int)
    | NearTick(cachedNow: int)
    | EnqueueTicked
    | TakePending(keys: seq<Str>)

  ghost predicate Enabled(s: State, a: Action, hash: HashFn) {
    if a.BeginSet? || a.BeginDelete? || a.BeginFlush? then BeginEnabled(s, a)
    else if WriterAction(a) then s.writer.Some? && WriterEnabled(s, s.writer.value, a)
    else if ReaderAction(a) then ReaderEnabled(s, a)
    else CollectorEnabled(s, a)
  }

  ghost function Apply(s: State, a: Action, hash: HashFn): State
    requires Enabled(s, a, hash)
  {
    if a.BeginSet? || a.BeginDelete? || a.BeginFlush? then Begin(s, a, hash)
    else if WriterAction(a) then WriterStep(s, s.writer.value, a, hash)
    else if ReaderAction(a) then ReaderStep(s, a, hash)
    else CollectorStep(s, a)
  }

  predicate WriterAction(a: Action) {
    a.CopySegment? || a.EditKeys? || a.EditVals? || a.CountKey? || a.EndKey? || a.Install? || a.Publish? ||
    a.Account? || a.Schedule? || a.Unlock? || a.CancelPanics? || a.SchedulePanics?
  }

  predicate ReaderAction(a: Action) {
    a.Load? || a.LoadAgain? || a.Probe? || a.EndSearch? || a.Look? || a.Touch? || a.RequestDelete? ||
    a.LoadKeys? || a.ListSegment?
  }

  // ---------- Taking the lock ----------

  predicate BeginEnabled(s: State, a: Action)
    requires a.BeginSet? || a.BeginDelete? || a.BeginFlush?
  {
    && s.writer.None? && a.index !in s.mem.indexes && s.ptr in s.mem.indexes
    && match a
       case BeginSet(_, _, _, id, _) => id !in s.ids
       case BeginDelete(keys, _) => keys != []
       case BeginFlush(_) => s.inFlight.Some? && s.inFlight.value != []
  }

  ghost function Begin(s: State, a: Action, hash: HashFn): State
    requires (a.BeginSet? || a.BeginDelete? || a.BeginFlush?) && BeginEnabled(s, a)
  {
    match a
    case BeginSet(key, data, cachedNow, id, index) =>
      var cell := Cell(id, data.(accessCount := 0, lastAccess := cachedNow));
      Locked(s, Put(key, cell), index, hash).(ids := s.ids + {id})
    case BeginDelete(keys, index) =>
      Locked(s, Drop(keys), index, hash)
    case BeginFlush(index) =>
      Locked(s, Drop(s.inFlight.value), index, hash).(
        inFlight := None, handed := s.handed + AsSet(s.inFlight.value))
  }

  ghost function JobKeys(job: Job): set<Str> {
    match job
    case Put(key, _) => {key}
    case Drop(keys) => AsSet(keys)
  }

  /** Under the lock: the pointer is loaded, the index copied and the keys grouped. */
  ghost function Locked(s: State, job: Job, index: nat, hash: HashFn): State
    requires s.ptr in s.mem.indexes
  {
    s.(mem := s.mem.(indexes := s.mem.indexes[index := s.mem.indexes[s.ptr]]),
       writer := Some(Writer(job, s.ptr, index, set k | k in JobKeys(job) :: SlotOf(s.mem, s.ptr, hash, k),
                             None, {}, 0, 0, Building)))
  }

  // ---------- The writer's steps ----------

  ghost predicate WriterEnabled(s: State, w: Writer, a: Action)
    requires WriterAction(a)
  {
    match a
    case CopySegment(si, seg) => w.stage.Building? && w.group.None? && si in w.todo && seg !in s.mem.segs
    case EditKeys(i) =>
      w.stage.Building? && w.group.Some? && w.group.value.edit.Idle? && w.group.value.left != [] &&
      w.group.value.seg in s.mem.segs &&
      var b := s.mem.segs[w.group.value.seg];
      SegOk(b) && Splits(b.keys, w.group.value.left[0], i)
    case EditVals => AtEdit(s, w, KeysDone)
    case CountKey => AtEdit(s, w, ValsDone)
    case EndKey => AtEdit(s, w, Counted) && W.Shape(s.wheel) && KeyEnded(s, w).Ok?
    case Install =>
      w.stage.Building? && w.group.Some? && w.group.value.edit.Idle? && w.group.value.left == [] &&
      w.index in s.mem.indexes && w.group.value.si < |s.mem.indexes[w.index]|
    case Publish => w.stage.Building? && w.group.None? && w.todo == {}
    case Account => w.stage.Published?
    case Schedule(clk) => w.stage.Accounted? && W.Shape(s.wheel) && JobScheduled(s, w, clk).Ok?
    case Unlock => w.stage.Finished?
    case CancelPanics => AtEdit(s, w, Counted) && W.Shape(s.wheel) && KeyEnded(s, w).Err?
    case SchedulePanics(clk) => w.stage.Accounted? && W.Shape(s.wheel) && JobScheduled(s, w, clk).Err?
  }

  /** The collector as its operations see it. */
  function GcOf(s: State): CM.Collector {
    CM.Collector(s.wheel, s.near, CM.DEFAULT_NEAR_WINDOW_MS, s.pending)
  }

  /** What becomes of the collector when a key is done: a batch cancels it. Err is a panic. */
  function KeyEnded(s: State, w: Writer): Result<CM.Collector>
    requires W.Shape(s.wheel) && w.group.Some? && w.group.value.left != []
  {
    if w.job.Drop? then CM.Cancel(GcOf(s), w.group.value.left[0]) else Ok(GcOf(s))
  }

  /** What becomes of it when the whole job is done: a Set schedules its key. */
  function JobScheduled(s: State, w: Writer, clk: CM.Clock): Result<CM.Collector>
    requires W.Shape(s.wheel)
  {
    match w.job
    case Put(key, cell) => CM.Schedule(GcOf(s), key, cell.data.ttl, cell.data.createdAt, clk)
    case Drop(_) => Ok(GcOf(s))
  }

  ghost predicate AtEdit(s: State, w: Writer, step: EditStep) {
    && w.stage.Building? && w.group.Some?
    && var g := w.group.value;
    && g.edit.Editing? && g.edit.step == step && g.left != [] && g.seg in s.mem.segs
    && EditFits(w.job, g.edit)
  }

  predicate EditFits(job: Job, e: Edit)
    requires e.Editing?
  {
    && |e.before.keys| == |e.before.vals| && e.i <= |e.before.keys|
    && (e.found ==> e.i < |e.before.keys|) && (job.Drop? ==> e.found)
  }

  ghost function WriterStep(s: State, w: Writer, a: Action, hash: HashFn): State
    requires WriterAction(a) && WriterEnabled(s, w, a)
  {
    match a
    case CopySegment(si, seg) =>
      s.(mem := s.mem.(segs := s.mem.segs[seg := SegAt(s.mem, w.base, si)]),
         writer := Some(w.(group := Some(Group(si, seg, KeysOfGroup(w.job, s.mem, w.base, hash, si), {}, Idle, 0)))))
    case EditKeys(i) => StepEditKeys(s, w, i)
    case EditVals =>
      var g := w.group.value;
      var copy := s.mem.segs[g.seg];
      s.(mem := s.mem.(segs := s.mem.segs[g.seg := Seg(copy.keys, Effect(w.job, g.edit.before, g.edit.i).vals)]),
         writer := Some(w.(group := Some(g.(edit := g.edit.(step := ValsDone))))))
    case CountKey =>
      var g := w.group.value;
      var n := CountChange(w.job, g.edit.found);
      s.(keyCount := s.keyCount + n,
         writer := Some(w.(counted := w.counted + n, group := Some(g.(edit := g.edit.(step := Counted))))))
    case EndKey =>
      var g := w.group.value;
      var k := g.left[0];
      var gc := KeyEnded(s, w).value;
      s.(wheel := gc.wheel, near := gc.near,
         writer := Some(w.(group := Some(g.(left := g.left[1..], done := g.done + {k}, edit := Idle,
           delta := g.delta + DeltaChange(w.job, k, g.edit.before, g.edit.i, g.edit.found))))))
    case Install =>
      var g := w.group.value;
      var segments: seq<nat> := s.mem.indexes[w.index][g.si := g.seg];
      s.(mem := s.mem.(indexes := s.mem.indexes[w.index := segments]),
         writer := Some(w.(todo := w.todo - {g.si}, group := None, done := w.done + g.done,
           delta := w.delta + g.delta)))
    case Publish =>
      if w.job.Put? || w.delta != 0 then
        s.(ptr := w.index, published := s.published + {w.index}, writer := Some(w.(stage := Published)))
      else
        s.(excess := s.excess - w.counted, writer := Some(w.(stage := Finished)))
    case Account => s.(usedBytes := s.usedBytes + w.delta, writer := Some(w.(stage := Accounted)))
    case Schedule(clk) =>
      var gc := JobScheduled(s, w, clk).value;
      s.(wheel := gc.wheel, near := gc.near, writer := Some(w.(stage := Finished)))
    case Unlock => s.(writer := None)
    case CancelPanics => s.(excess := s.excess - w.counted, writer := None)
    case SchedulePanics(_) => s.(writer := None)
  }

  /** The search and the edit of the key array; a key of a batch that is not there is passed over. */
  ghost function StepEditKeys(s: State, w: Writer, i: nat): State
    requires WriterEnabled(s, w, EditKeys(i))
  {
    var g := w.group.value;
    var k := g.left[0];
    var b := s.mem.segs[g.seg];
    var found := i < |b.keys| && b.keys[i] == k;
    if w.job.Drop? && !found then
      s.(writer := Some(w.(group := Some(g.(left := g.left[1..], done := g.done + {k})))))
    else
      s.(mem := s.mem.(segs := s.mem.segs[g.seg := Seg(Effect(w.job, b, i).keys, b.vals)]),
         writer := Some(w.(group := Some(g.(edit := Editing(KeysDone, i, found, b))))))
  }

  // ---------- The readers' steps ----------

  predicate ReaderEnabled(s: State, a: Action)
    requires ReaderAction(a)
  {
    if a.Load? || a.LoadKeys? then a.r !in s.readers else
      a.r in s.readers &&
      var r := s.readers[a.r];
      match a
      case LoadAgain(_) => r.phase.Loaded?
      case Probe(_) => r.phase.Searching? && r.phase.lo < r.phase.hi &&
        ProbeAt(s, r) < |SegAt(s.mem, r.idx, r.phase.si).keys|
      case EndSearch(_) => r.phase.Searching? && r.phase.lo >= r.phase.hi && 0 <= r.phase.lo &&
        |SegAt(s.mem, r.idx, r.phase.si).keys| == |SegAt(s.mem, r.idx, r.phase.si).vals|
      case Look(_, _) => r.phase.Found?
      case Touch(_, _) => r.phase.Live?
      case RequestDelete(_) => r.phase.Doomed?
      case ListSegment(_) => r.phase.Listing?
  }

  function ProbeAt(s: State, r: Reader): nat
    requires r.phase.Searching?
  {
    var h := (r.phase.lo + r.phase.hi) / 2;
    if h < 0 then 0 else h
  }

  function AccessCount(s: State, c: Cell): int {
    if c in s.touched then s.touched[c].0 else 0
  }

  function LastAccess(s: State, c: Cell): int {
    if c in s.touched then s.touched[c].1 else c.data.lastAccess
  }

  ghost function ReaderStep(s: State, a: Action, hash: HashFn): State
    requires ReaderAction(a) && ReaderEnabled(s, a)
  {
    if a.Load? then
      s.(readers := s.readers[a.r := Reader(a.key, a.isGet, s.ptr, Stored(s, hash), Loaded)])
    else if a.LoadKeys? then
      s.(readers := s.readers[a.r := Reader([], false, s.ptr, Stored(s, hash), Listing(0, []))])
    else
      var r := s.readers[a.r];
      match a
      case LoadAgain(_) =>
        var si := SlotOf(s.mem, s.ptr, hash, r.key);
        Moved(s, a.r, Searching(si, 0, |SegAt(s.mem, r.idx, si).keys|))
      case Probe(_) =>
        var h := ProbeAt(s, r);
        if Less(SegAt(s.mem, r.idx, r.phase.si).keys[h], r.key)
        then Moved(s, a.r, r.phase.(lo := h + 1)) else Moved(s, a.r, r.phase.(hi := h))
      case EndSearch(_) =>
        var seg := SegAt(s.mem, r.idx, r.phase.si);
        var i := r.phase.lo;
        if i < |seg.keys| && seg.keys[i] == r.key
        then Moved(s, a.r, if r.isGet then Found(seg.vals[i]) else Done(true, None))
        else Moved(s, a.r, Done(false, None))
      case Look(_, now) =>
        var c := r.phase.cell;
        Moved(s, a.r, if c.data.expiresAt.Some? && now > c.data.expiresAt.value then Doomed(c, None) else Live(c))
      case Touch(_, cachedNow) => StepTouch(s, a.r, cachedNow)
      case ListSegment(_) =>
        Moved(s, a.r, if r.idx in s.mem.indexes && r.phase.i < |s.mem.indexes[r.idx]|
          then Listing(r.phase.i + 1, r.phase.keys + SegAt(s.mem, r.idx, r.phase.i).keys) else Listed(r.phase.keys))
      case RequestDelete(_) =>
        Moved(s, a.r, Done(true, r.phase.answer)).(pending := s.pending + {r.key}, enqueued := s.enqueued + {r.key})
  }

  ghost function Moved(s: State, id: nat, phase: Phase): State
    requires id in s.readers
  {
    s.(readers := s.readers[id := s.readers[id].(phase := phase)])
  }

  /** The compare-and-swap on a single-read entry, or the statistics of any other. */
  ghost function StepTouch(s: State, id: nat, cachedNow: int): State
    requires id in s.readers && s.readers[id].phase.Live?
  {
    var c := s.readers[id].phase.cell;
    if c.data.singleRead then
      if AccessCount(s, c) == 0 then
        Moved(s, id, Doomed(c, Some(c))).(touched := s.touched[c := (1, LastAccess(s, c))],
          served := s.served + multiset{c})
      else
        Moved(s, id, Done(true, None))
    else
      Moved(s, id, Done(true, Some(c))).(
        touched := s.touched[c := (WrapInt32(AccessCount(s, c) + 1), cachedNow)], served := s.served + multiset{c})
  }

  // ---------- The collector's steps ----------

  ghost predicate CollectorEnabled(s: State, a: Action) {
    match a
    case WheelTick(_) => s.ticked.None? && W.Shape(s.wheel)
    case NearTick(_) => s.ticked.None?
    case EnqueueTicked => s.ticked.Some?
    case TakePending(keys) =>
      s.inFlight.None? && s.pending != {} && NoDuplicates(keys) && AsSet(keys) == s.pending
    case _ => false
  }

  ghost function CollectorStep(s: State, a: Action): State
    requires CollectorEnabled(s, a)
  {
    match a
    case WheelTick(wallMs) => s.(wheel := W.Advance(s.wheel, wallMs), ticked := Some(W.Expired(s.wheel, wallMs)))
    case NearTick(cachedNow) =>
      var (near, popped) := N.Drain(s.near, DeadlineMs(cachedNow), false);
      s.(near := near, ticked := Some(seq(|popped|, i requires 0 <= i < |popped| => popped[i].key)))
    case EnqueueTicked =>
      var keys := AsSet(s.ticked.value);
      s.(ticked := None, pending := s.pending + keys, enqueued := s.enqueued + keys)
    case TakePending(keys) => s.(inFlight := Some(keys), pending := {})
  }

  // ---------- Runs ----------

  /** NewMemoryStore: 64 empty segments, all without arrays of their own. */
  ghost predicate Initial(s: State, hash: HashFn) {
    && s.mem == Memory(map[0 := seq(SEGMENTS, _ => 0)], map[0 := Seg([], [])])
    && s.ptr == 0 && s.touched == map[] && s.usedBytes == 0 && s.keyCount == 0
    && CM.CollectorOk(GcOf(s)) && s.wheel.keyIndex == map[] && s.near == N.Near([], map[])
    && s.writer == None && s.readers == map[] && s.ticked == None && s.pending == {} && s.inFlight == None
    && s.published == {0} && s.excess == 0 && s.ids == {} && s.served == multiset{} && s.enqueued == {} &&
      s.handed == {}
  }

  ghost predicate RunOk(s: State, run: seq<Action>, hash: HashFn)
    decreases |run|
  {
    run == [] || (Enabled(s, run[0], hash) && RunOk(Apply(s, run[0], hash), run[1..], hash))
  }

  ghost function RunEnd(s: State, run: seq<Action>, hash: HashFn): State
    requires RunOk(s, run, hash)
    decreases |run|
  {
    if run == [] then s else RunEnd(Apply(s, run[0], hash), run[1..], hash)
  }
}
