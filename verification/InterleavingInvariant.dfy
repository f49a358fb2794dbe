/** What holds in every state of every run of the machine. */
module StoreInvariant {
  import opened GoTypes
  import opened KeyOrder
  import opened SegmentIndex
  import opened BatchDelete
  import opened StoreSteps
  import opened NearQueueProofs
  import CM = CollectorModel

  // ---------- Memory ----------

  ghost predicate MemoryOk(s: State, hash: HashFn) {
    s.ptr in s.published && forall x :: x in s.published ==> IndexOkAt(s.mem, x, hash)
  }

  /** Index x shows the same keys and the same entry pointers in both memories. */
  ghost predicate Same(m: Memory, n: Memory, x: nat) {
    Known(m, x) && Known(n, x) && ViewAt(n, x) == ViewAt(m, x)
  }

  lemma WriteSegment(m: Memory, id: nat, seg: Seg<Cell>, x: nat)
    requires Known(m, x) && id !in m.indexes[x]
    ensures Same(m, m.(segs := m.segs[id := seg]), x)
  {
  }

  lemma WriteIndex(m: Memory, y: nat, ids: seq<nat>, x: nat)
    requires Known(m, x) && x != y
    ensures Same(m, m.(indexes := m.indexes[y := ids]), x)
  {
  }

  lemma SameOk(m: Memory, n: Memory, x: nat, hash: HashFn)
    requires Same(m, n, x)
    ensures IndexOkAt(m, x, hash) <==> IndexOkAt(n, x, hash)
    ensures MapAt(m, x, hash) == MapAt(n, x, hash)
  {
  }

  // ---------- The writer ----------

  /** b is what the job has made of segment a after the keys done; d is the change of its size. */
  ghost predicate Worked(job: Job, a: Seg<Cell>, done: set<Str>, b: Seg<Cell>, d: int) {
    && SegOk(a) && SegOk(b)
    && d == SumSizes(b.keys, b.vals, CellSize) - SumSizes(a.keys, a.vals, CellSize)
    && match job
       case Put(key, cell) => done <= {key} && if key in done then SegMap(b) == SegMap(a)[key := cell] else b == a
       case Drop(_) => Shrunk(a, done, b, -d, CellSize)
  }

  /** w is what the job has made of index v after the keys done; delta is the change of its size. */
  ghost predicate Built(job: Job, v: seq<Seg<Cell>>, w: seq<Seg<Cell>>, hash: HashFn, done: set<Str>, delta: int) {
    && |v| == |w| == SEGMENTS
    && ViewOk(v, hash) && ViewOk(w, hash)
    && delta == BytesOf(w, hash, CellSize) - BytesOf(v, hash, CellSize)
    && match job
       case Put(key, cell) => done <= {key} &&
         if key in done then MapOf(w, hash) == MapOf(v, hash)[key := cell] else w == v
       case Drop(_) => Progress(v, w, hash, done, delta, CellSize)
  }

  /** What the whole job makes of a map, when it is published. */
  ghost function Outcome(job: Job, m: map<Str, Cell>): map<Str, Cell> {
    match job
    case Put(key, cell) => m[key := cell]
    case Drop(keys) => m - AsSet(keys)
  }

  /** Nobody but the writer can reach the segment it edits. */
  ghost predicate Private(s: State, w: Writer, seg: nat) {
    && seg in s.mem.segs && w.index in s.mem.indexes && seg !in s.mem.indexes[w.index]
    && forall x :: x in s.published ==> x in s.mem.indexes && seg !in s.mem.indexes[x]
  }

  ghost predicate WriterMemory(s: State, w: Writer) {
    && w.base in s.published
    && if w.stage.Building? then
         w.base == s.ptr && w.index !in s.published && Known(s.mem, w.index) &&
         (w.group.Some? ==> Private(s, w, w.group.value.seg))
       else w.group.None? && (!w.stage.Finished? ==> w.index == s.ptr)
  }

  /** Every key of the job is done, or is still to come with its segment. */
  ghost predicate WriterKeys(w: Writer, hash: HashFn) {
    && w.done <= JobKeys(w.job)
    && (forall k :: k in JobKeys(w.job) ==> k in w.done || hash(k) % SEGMENTS in w.todo)
    && (w.job.Put? ==>
          (w.todo == {hash(w.job.key) % SEGMENTS} && w.done == {}) || (w.todo == {} && w.done == {w.job.key}))
    && (w.group.Some? ==> w.group.value.si in w.todo && GroupKeysOk(w.job, w.group.value, hash))
  }

  ghost predicate GroupKeysOk(job: Job, g: Group, hash: HashFn) {
    && (forall k :: k in g.done || k in g.left ==> k in JobKeys(job) && hash(k) % SEGMENTS == g.si)
    && (forall k :: k in JobKeys(job) && hash(k) % SEGMENTS == g.si ==> k in g.done || k in g.left)
    && (job.Put? ==> (g.left == [job.key] && g.done == {}) || (g.left == [] && g.done == {job.key}))
  }

  /** The index under construction: built as far as the keys done, untouched where there is more to do. */
  ghost predicate IndexWork(v: seq<Seg<Cell>>, u: seq<Seg<Cell>>, w: Writer, hash: HashFn) {
    && Built(w.job, v, u, hash, w.done, w.delta)
    && (forall si :: si in w.todo ==> si < SEGMENTS && u[si] == v[si])
  }

  ghost predicate WriterView(s: State, w: Writer, hash: HashFn) {
    if w.stage.Building? then
      && IndexWork(ViewAt(s.mem, w.base), ViewAt(s.mem, w.index), w, hash)
      && (w.group.Some? ==>
            var g := w.group.value;
            g.si < SEGMENTS && GroupWork(s.mem, w.job, g, ViewAt(s.mem, w.base)[g.si]))
    else if w.stage.Finished? then true else
      && IndexOkAt(s.mem, w.base, hash) && IndexOkAt(s.mem, w.index, hash)
      && MapAt(s.mem, w.index, hash) == Outcome(w.job, MapAt(s.mem, w.base, hash))
      && w.delta == BytesOf(ViewAt(s.mem, w.index), hash, CellSize) - BytesOf(ViewAt(s.mem, w.base), hash, CellSize)
  }

  /** The segment copy, between and within the edits. */
  ghost predicate GroupWork(m: Memory, job: Job, g: Group, a: Seg<Cell>) {
    g.seg in m.segs &&
    match g.edit
    case Idle => Worked(job, a, g.done, m.segs[g.seg], g.delta)
    case Editing(step, i, found, b) =>
      && g.left != [] && EditFits(job, g.edit) && SegOk(b) && Splits(b.keys, g.left[0], i)
      && (found <==> i < |b.keys| && b.keys[i] == g.left[0])
      && Worked(job, a, g.done, b, g.delta)
      && m.segs[g.seg] == if step.KeysDone? then Seg(Effect(job, b, i).keys, b.vals) else Effect(job, b, i)
  }

  ghost predicate WriterOk(s: State, hash: HashFn) {
    s.writer.Some? ==>
      var w := s.writer.value;
      WriterMemory(s, w) && (w.stage.Building? ==> WriterKeys(w, hash)) && WriterView(s, w, hash)
  }

  // ---------- Counters ----------

  ghost predicate BytesOk(s: State, hash: HashFn)
    requires MemoryOk(s, hash)
  {
    if s.writer.Some? && s.writer.value.stage.Published? then
      var w := s.writer.value;
      && IndexOkAt(s.mem, w.base, hash)
      && s.usedBytes == BytesOf(ViewAt(s.mem, w.base), hash, CellSize)
      && s.usedBytes + w.delta == BytesOf(ViewAt(s.mem, s.ptr), hash, CellSize)
    else
      s.usedBytes == BytesOf(ViewAt(s.mem, s.ptr), hash, CellSize)
  }

  /** The number of keys of the copy as far as keyCount knows it. */
  function GroupCount(m: Memory, job: Job, g: Group): int {
    match g.edit
    case Idle => if g.seg in m.segs then |m.segs[g.seg].keys| else 0
    case Editing(step, _, found, b) => |b.keys| + if step.Counted? then CountChange(job, found) else 0
  }

  ghost predicate CountedOk(m: Memory, w: Writer) {
    w.counted == KeyTotal(ViewAt(m, w.index)) - KeyTotal(ViewAt(m, w.base)) +
      if w.group.Some? && w.group.value.si < SEGMENTS then
        GroupCount(m, w.job, w.group.value) - |ViewAt(m, w.base)[w.group.value.si].keys|
      else 0
  }

  ghost function Uncommitted(s: State): int {
    if s.writer.Some? && s.writer.value.stage.Building? then s.writer.value.counted else 0
  }

  /** The stored keys that the batch has counted down, its present key included. */
  ghost function CountedKeys(s: State, hash: HashFn): set<Str> {
    if s.writer.Some? && s.writer.value.group.Some? && s.writer.value.group.value.left != [] then
      var g := s.writer.value.group.value;
      (s.writer.value.done + g.done + {g.left[0]}) * Stored(s, hash).Keys
    else {}
  }

  ghost predicate CountOk(s: State, hash: HashFn) {
    && s.excess >= 0
    && s.keyCount == KeyTotal(ViewAt(s.mem, s.ptr)) - s.excess + Uncommitted(s)
    && (s.writer.Some? && s.writer.value.stage.Building? ==> CountedOk(s.mem, s.writer.value))
  }

  // ---------- The collector ----------

  /** The keys on the wheel or in the near queue's map. */
  function Scheduled(s: State): set<Str> {
    s.wheel.keyIndex.Keys + s.near.index.Keys
  }

  /** The keys of a batch delete that are done with. */
  ghost function Cancelled(s: State): set<Str> {
    if s.writer.None? || s.writer.value.job.Put? then {}
    else if s.writer.value.stage.Building? then
      s.writer.value.done + if s.writer.value.group.Some? then s.writer.value.group.value.done else {}
    else AsSet(s.writer.value.job.keys)
  }

  ghost predicate CollectorInv(s: State, hash: HashFn) {
    && CM.CollectorOk(GcOf(s)) && NearOk(s.near.heap)
    && Scheduled(s) <= Stored(s, hash).Keys
    && Scheduled(s) !! Cancelled(s)
    && (s.writer.Some? ==>
          var w := s.writer.value;
          w.job.Put? && !w.stage.Building? && !w.stage.Finished? ==> w.job.key in Stored(s, hash))
  }

  // ---------- Readers ----------

  /** What a reader has found out so far is what its key has in the map it saw when it began. */
  ghost predicate ReaderOk(m: Memory, r: Reader, hash: HashFn) {
    && IndexOkAt(m, r.idx, hash) && r.seen == MapAt(m, r.idx, hash)
    && PhaseOk(r, ViewAt(m, r.idx), hash)
  }

  ghost predicate PhaseOk(r: Reader, v: seq<Seg<Cell>>, hash: HashFn)
    requires |v| == SEGMENTS
  {
    match r.phase
    case Loaded => true
    case Searching(si, lo, hi) => si == hash(r.key) % SEGMENTS && SearchOk(v[si].keys, r.key, lo, hi)
    case Found(c) => r.isGet && r.key in r.seen && r.seen[r.key] == c
    case Live(c) => r.isGet && r.key in r.seen && r.seen[r.key] == c
    case Doomed(c, answer) => r.isGet && r.key in r.seen && r.seen[r.key] == c && (answer.Some? ==> answer.value == c)
    case Done(present, answer) =>
      && (present <==> r.key in r.seen)
      && (answer.Some? ==> r.isGet && present && answer.value == r.seen[r.key])
    case Listing(i, keys) => i <= SEGMENTS && keys == KeyList(v[..i])
    case Listed(keys) => multiset(keys) == multiset(r.seen.Keys)
  }

  ghost predicate SearchOk(keys: seq<Str>, key: Str, lo: int, hi: int) {
    && 0 <= lo <= hi <= |keys|
    && (forall k :: 0 <= k < lo ==> Less(keys[k], key))
    && (forall k :: hi <= k < |keys| ==> !Less(keys[k], key))
  }

  ghost predicate ReadersOk(s: State, hash: HashFn) {
    forall id :: id in s.readers ==> s.readers[id].idx in s.published && ReaderOk(s.mem, s.readers[id], hash)
  }

  // ---------- Single reads and the coalescer ----------

  ghost predicate ServedOk(s: State) {
    forall c: Cell :: c.data.singleRead ==> s.served[c] == AccessCount(s, c) <= 1
  }

  function InFlight(s: State): set<Str> {
    if s.inFlight.Some? then AsSet(s.inFlight.value) else {}
  }

  /** Every key ever enqueued is pending, in the hands of a flush, or handed to deleteBatch. */
  ghost predicate CoalescerOk(s: State) {
    && s.enqueued == s.pending + InFlight(s) + s.handed
    && (s.inFlight.Some? ==> NoDuplicates(s.inFlight.value) && s.inFlight.value != [])
  }

  ghost predicate Invariant(s: State, hash: HashFn) {
    && MemoryOk(s, hash) && WriterOk(s, hash) && BytesOk(s, hash) && CountOk(s, hash) && CollectorInv(s, hash)
    && ReadersOk(s, hash) && ServedOk(s) && CoalescerOk(s)
  }
}
