/** What runs of the machine make of one lookup, and of one key in the coalescer: statements that
    relate the steps of a run to each other. */
module StoreHistory {
  import opened GoTypes
  import opened KeyOrder
  import opened SegmentIndex
  import opened Entries
  import opened StoreSteps
  import opened StoreInvariant
  import opened StoreReaders
  import opened StoreRuns
  import N = NearModel
  import W = WheelModel

  // ---------- Lookups ----------

  ghost predicate ExpiredAt(c: Cell, now: int) {
    c.data.expiresAt.Some? && now > c.data.expiresAt.value
  }

  /** What the compare-and-swap, or the lack of one, makes of a live entry. */
  ghost function TouchAnswer(s: State, c: Cell): Option<Cell> {
    if !c.data.singleRead || AccessCount(s, c) == 0 then Some(c) else None
  }

  ghost predicate HasAnswer(phase: Phase, answer: Option<Cell>) {
    (phase.Doomed? || (phase.Done? && phase.present)) && phase.answer == answer
  }

  ghost predicate Seeking(r: Reader) {
    r.phase.Loaded? || r.phase.Searching?
  }

  lemma ReaderStill(s: State, a: Action, hash: HashFn, id: nat)
    requires Enabled(s, a, hash) && id in s.readers && !(ReaderAction(a) && a.r == id)
    ensures id in Apply(s, a, hash).readers && Apply(s, a, hash).readers[id] == s.readers[id]
  {
    hide Enabled, Apply;
    ReaderKeepsSeen(s, a, hash, id);
    OnlyOneMoves(s, a, hash);
  }

  /** Where each of its own steps takes a reader; it requests a delete where it is doomed only. */
  lemma OwnStep(s: State, a: Action, hash: HashFn)
    requires Enabled(s, a, hash) && ReaderAction(a) && a.r in s.readers
    ensures a.r in Apply(s, a, hash).readers
    ensures var before, after := s.readers[a.r].phase, Apply(s, a, hash).readers[a.r].phase;
            match before
            case Loaded => after.Searching?
            case Searching(_, _, _) =>
              after.Searching? || (after.Found? && s.readers[a.r].isGet) ||
              (after.Done? && (after.present ==> !s.readers[a.r].isGet))
            case Found(c) => a.Look? && after == if ExpiredAt(c, a.now) then Doomed(c, None) else Live(c)
            case Live(c) => a.Touch? && HasAnswer(after, TouchAnswer(s, c))
            case Doomed(c, answer) => a.RequestDelete? && after == Done(true, answer)
            case Done(_, _) => false
            case Listing(_, _) => after.Listing? || after.Listed?
            case Listed(_) => false
    ensures a.RequestDelete? ==> s.readers[a.r].phase.Doomed?
  {
    hide WriterEnabled, WriterStep, CollectorEnabled, CollectorStep, Begin, SegAt, SlotOf, Less, Stored, AccessCount,
      ProbeAt, StepTouch;
    if a.Touch? {
      TouchStep(s, a.r, a.cachedNow);
    }
  }

  lemma TouchStep(s: State, id: nat, cachedNow: int)
    requires id in s.readers && s.readers[id].phase.Live?
    ensures var r := StepTouch(s, id, cachedNow);
            id in r.readers && HasAnswer(r.readers[id].phase, TouchAnswer(s, s.readers[id].phase.cell))
  {
    hide AccessCount;
  }

  lemma {:induction false} AnswerStays(s: State, run: seq<Action>, hash: HashFn, id: nat, answer: Option<Cell>)
    requires RunOk(s, run, hash) && id in s.readers && HasAnswer(s.readers[id].phase, answer)
    ensures var r := RunEnd(s, run, hash); id in r.readers && HasAnswer(r.readers[id].phase, answer)
    decreases |run|
  {
    hide Enabled, Apply;
    if run != [] {
      if ReaderAction(run[0]) && run[0].r == id {
        OwnStep(s, run[0], hash);
      } else {
        ReaderStill(s, run[0], hash, id);
      }
      AnswerStays(Apply(s, run[0], hash), run[1..], hash, id, answer);
    }
  }

  /** The entry in a cell, with its statistics as they are by now. */
  function EntryNow(s: State, c: Cell): StorageEntry {
    c.data.(accessCount := AccessCount(s, c), lastAccess := LastAccess(s, c))
  }

  /** One look at the time and one touch are together what reading the entry is: the answer, whether
      its key is doomed, and its statistics; no other entry changes. */
  lemma LookAndTouchAreRead(s: State, id: nat, now: int, cachedNow: int, d: Cell)
    requires id in s.readers && s.readers[id].phase.Live? && !ExpiredAt(s.readers[id].phase.cell, now)
    ensures var c, r := s.readers[id].phase.cell, StepTouch(s, id, cachedNow);
            var (after, answer, doomed) := Read(EntryNow(s, c), now, cachedNow);
            EntryNow(r, c) == after && (d != c ==> EntryNow(r, d) == EntryNow(s, d)) &&
            id in r.readers && HasAnswer(r.readers[id].phase, if answer.Some? then Some(c) else None) &&
            (doomed <==> r.readers[id].phase.Doomed?)
  {
  }

  // ---------- The deletes that lookups ask for ----------

  predicate IsRequest(a: Action, id: nat) {
    a.RequestDelete? && a.r == id
  }

  /** Some step of the run asks for the delete of this reader's key. */
  predicate AsksDelete(run: seq<Action>, id: nat)
    decreases |run|
  {
    run != [] && (IsRequest(run[0], id) || AsksDelete(run[1..], id))
  }

  lemma {:induction false} DoneAsksNothing(s: State, run: seq<Action>, hash: HashFn, id: nat)
    requires RunOk(s, run, hash) && id in s.readers && s.readers[id].phase.Done?
    ensures !AsksDelete(run, id)
    decreases |run|
  {
    hide Enabled, Apply;
    if run != [] {
      if ReaderAction(run[0]) && run[0].r == id {
        OwnStep(s, run[0], hash);
      }
      ReaderStill(s, run[0], hash, id);
      DoneAsksNothing(Apply(s, run[0], hash), run[1..], hash, id);
    }
  }

  lemma {:induction false} DoomedAsks(s: State, run: seq<Action>, hash: HashFn, id: nat)
    requires RunOk(s, run, hash) && id in s.readers && s.readers[id].phase.Doomed?
    requires id in RunEnd(s, run, hash).readers && RunEnd(s, run, hash).readers[id].phase.Done?
    ensures AsksDelete(run, id)
    decreases |run|
  {
    hide Enabled, Apply;
    if ReaderAction(run[0]) && run[0].r == id {
      OwnStep(s, run[0], hash);
    } else {
      ReaderStill(s, run[0], hash, id);
      DoomedAsks(Apply(s, run[0], hash), run[1..], hash, id);
    }
  }

  /** Only a Get of a stored key ever asks for a delete. */
  lemma {:induction false} AsksForStored(s: State, run: seq<Action>, hash: HashFn, id: nat)
    requires RunOk(s, run, hash) && Invariant(s, hash) && AsksDelete(run, id)
    ensures id in RunEnd(s, run, hash).readers
    ensures var r := RunEnd(s, run, hash).readers[id]; r.isGet && r.key in r.seen
    decreases |run|
  {
    hide Enabled, Apply, Invariant;
    StepKeepsInvariant(s, run[0], hash);
    if IsRequest(run[0], id) {
      RequesterExists(s, run[0], hash);
      OwnStep(s, run[0], hash);
      FoundAsSeen(s, id, hash);
      ReaderStays(s, run, hash, id);
    } else {
      AsksForStored(Apply(s, run[0], hash), run[1..], hash, id);
    }
  }

  lemma RequesterExists(s: State, a: Action, hash: HashFn)
    requires Enabled(s, a, hash) && a.RequestDelete?
    ensures a.r in s.readers
  {
  }

  lemma {:induction false} LoadIsFirst(s: State, run: seq<Action>, hash: HashFn, id: nat, n: nat)
    requires RunOk(s, run, hash) && n < |run| && run[n].Load? && run[n].r == id
    ensures id !in s.readers
    decreases n
  {
    hide WriterEnabled, BeginEnabled, CollectorEnabled, Apply;
    if n > 0 {
      LoadIsFirst(Apply(s, run[0], hash), run[1..], hash, id, n - 1);
      if id in s.readers {
        ReaderKeepsSeen(s, run[0], hash, id);
      }
    }
  }

  ghost predicate FinishedAs(s: State, id: nat, answer: Option<Cell>) {
    id in s.readers && s.readers[id].phase.Done? && HasAnswer(s.readers[id].phase, answer)
  }

  /** A finished reader of run that was at entry c: its compare-and-swap, or count, is step p. It asks
      for a delete exactly if it got an entry for a single read. */
  ghost predicate TouchedAt(s: State, run: seq<Action>, hash: HashFn, id: nat, c: Cell, p: nat)
    requires RunOk(s, run, hash)
  {
    && p < |run| && RunOk(s, run[..p], hash) && run[p].Touch? && run[p].r == id
    && var answer := TouchAnswer(RunEnd(s, run[..p], hash), c);
    && FinishedAs(RunEnd(s, run, hash), id, answer)
    && (AsksDelete(run, id) <==> c.data.singleRead && answer.Some?)
  }

  /** It looked at the time of expiry in step m: if that had passed, it asks for a delete, and if not,
      it touched the entry in step p. */
  ghost predicate LookedAt(s: State, run: seq<Action>, hash: HashFn, id: nat, c: Cell, m: nat, p: nat)
    requires RunOk(s, run, hash)
  {
    && m < |run| && run[m].Look? && run[m].r == id
    && if ExpiredAt(c, run[m].now) then FinishedAs(RunEnd(s, run, hash), id, None) && AsksDelete(run, id)
       else m < p && TouchedAt(s, run, hash, id, c, p)
  }

  lemma TouchDooms(s: State, a: Action, hash: HashFn)
    requires Enabled(s, a, hash) && a.Touch?
    ensures a.r in s.readers && s.readers[a.r].phase.Live? && a.r in Apply(s, a, hash).readers
    ensures var c, after := s.readers[a.r].phase.cell, Apply(s, a, hash).readers[a.r].phase;
            if c.data.singleRead && TouchAnswer(s, c).Some? then after.Doomed? else after.Done?
  {
    hide AccessCount;
  }

  lemma {:induction false} TouchOfRun(s: State, run: seq<Action>, hash: HashFn, id: nat, c: Cell) returns (p: nat)
    requires RunOk(s, run, hash) && id in s.readers && s.readers[id].phase == Live(c)
    requires id in RunEnd(s, run, hash).readers && RunEnd(s, run, hash).readers[id].phase.Done?
    ensures TouchedAt(s, run, hash, id, c, p)
    decreases |run|
  {
    hide Enabled, Apply, HasAnswer;
    var a, r := run[0], Apply(s, run[0], hash);
    if ReaderAction(a) && a.r == id {
      p := 0;
      OwnStep(s, a, hash);
      AnswerStays(r, run[1..], hash, id, TouchAnswer(s, c));
      TouchDooms(s, a, hash);
      if r.readers[id].phase.Doomed? {
        DoomedAsks(r, run[1..], hash, id);
      } else {
        DoneAsksNothing(r, run[1..], hash, id);
      }
      assert run[..0] == [];
    } else {
      ReaderStill(s, a, hash, id);
      p := TouchOfRun(r, run[1..], hash, id, c);
      PrefixShift(s, run, hash, p);
      p := p + 1;
    }
  }

  lemma {:induction false} LookOfRun(s: State, run: seq<Action>, hash: HashFn, id: nat, c: Cell)
    returns (m: nat, p: nat)
    requires RunOk(s, run, hash) && id in s.readers && s.readers[id].phase == Found(c)
    requires id in RunEnd(s, run, hash).readers && RunEnd(s, run, hash).readers[id].phase.Done?
    ensures LookedAt(s, run, hash, id, c, m, p)
    decreases |run|
  {
    hide Enabled, Apply, TouchedAt;
    var a, r := run[0], Apply(s, run[0], hash);
    m, p := 0, 0;
    if ReaderAction(a) && a.r == id {
      OwnStep(s, a, hash);
      if ExpiredAt(c, a.now) {
        AnswerStays(r, run[1..], hash, id, None);
        DoomedAsks(r, run[1..], hash, id);
      } else {
        p := TouchOfRun(r, run[1..], hash, id, c);
        TouchedLater(s, run, hash, id, c, p);
        p := p + 1;
      }
    } else {
      ReaderStill(s, a, hash, id);
      m, p := LookOfRun(r, run[1..], hash, id, c);
      LookedLater(s, run, hash, id, c, m, p);
      m, p := m + 1, p + 1;
    }
  }

  lemma TouchedLater(s: State, run: seq<Action>, hash: HashFn, id: nat, c: Cell, p: nat)
    requires RunOk(s, run, hash) && run != [] && TouchedAt(Apply(s, run[0], hash), run[1..], hash, id, c, p)
    requires !IsRequest(run[0], id)
    ensures TouchedAt(s, run, hash, id, c, p + 1)
  {
    hide Enabled, Apply, FinishedAs, TouchAnswer;
    PrefixShift(s, run, hash, p);
  }

  lemma LookedLater(s: State, run: seq<Action>, hash: HashFn, id: nat, c: Cell, m: nat, p: nat)
    requires RunOk(s, run, hash) && run != [] && LookedAt(Apply(s, run[0], hash), run[1..], hash, id, c, m, p)
    requires !IsRequest(run[0], id)
    ensures LookedAt(s, run, hash, id, c, m + 1, p + 1)
  {
    hide Enabled, Apply, FinishedAs, TouchedAt;
    if !ExpiredAt(c, run[m + 1].now) {
      TouchedLater(s, run, hash, id, c, p);
    }
  }

  lemma FoundAsSeen(s: State, id: nat, hash: HashFn)
    requires Invariant(s, hash) && id in s.readers
    ensures var r := s.readers[id]; r.phase.Found? ==> r.key in r.seen && r.phase.cell == r.seen[r.key]
    ensures var r := s.readers[id];
            r.phase.Done? ==>
              (r.phase.present <==> r.key in r.seen) &&
              (r.phase.answer.Some? ==> r.isGet && r.key in r.seen && r.phase.answer.value == r.seen[r.key])
    ensures var r := s.readers[id]; r.phase.Doomed? ==> r.isGet && r.key in r.seen
    ensures var r := s.readers[id]; r.phase.Listed? ==> multiset(r.phase.keys) == multiset(r.seen.Keys)
  {
    hide MemoryOk, WriterOk, BytesOk, CountOk, CollectorInv, ServedOk, CoalescerOk, IndexOkAt, ViewAt, MapAt;
    assert ReaderOk(s.mem, s.readers[id], hash);
  }

  /** A Get on its way to its entry. */
  lemma {:induction false} SearchOfRun(s: State, run: seq<Action>, hash: HashFn, id: nat) returns (m: nat, p: nat)
    requires RunOk(s, run, hash) && Invariant(s, hash) && id in s.readers && Seeking(s.readers[id])
    requires s.readers[id].isGet && s.readers[id].key in s.readers[id].seen
    requires id in RunEnd(s, run, hash).readers && RunEnd(s, run, hash).readers[id].phase.Done?
    ensures LookedAt(s, run, hash, id, s.readers[id].seen[s.readers[id].key], m, p)
    decreases |run|
  {
    hide Enabled, Apply, Invariant, LookedAt;
    var a, r := run[0], Apply(s, run[0], hash);
    var c := s.readers[id].seen[s.readers[id].key];
    StepKeepsInvariant(s, a, hash);
    ReaderKeepsSeen(s, a, hash, id);
    FoundAsSeen(r, id, hash);
    if ReaderAction(a) && a.r == id {
      OwnStep(s, a, hash);
    } else {
      ReaderStill(s, a, hash, id);
    }
    if r.readers[id].phase.Found? {
      m, p := LookOfRun(r, run[1..], hash, id, c);
    } else {
      m, p := SearchOfRun(r, run[1..], hash, id);
    }
    LookedLater(s, run, hash, id, c, m, p);
    m, p := m + 1, p + 1;
  }

  /** A Get of a stored key from its load on, which is step n. */
  lemma {:induction false} GetFromLoad(s: State, run: seq<Action>, hash: HashFn, id: nat, n: nat)
    returns (m: nat, p: nat)
    requires RunOk(s, run, hash) && Invariant(s, hash) && n < |run| && run[n].Load? && run[n].r == id
    requires id in RunEnd(s, run, hash).readers && RunEnd(s, run, hash).readers[id].phase.Done?
    requires var r := RunEnd(s, run, hash).readers[id]; r.isGet && r.key in r.seen
    ensures var r := RunEnd(s, run, hash).readers[id]; n < m && LookedAt(s, run, hash, id, r.seen[r.key], m, p)
    decreases n
  {
    hide Apply, Stored, Invariant, LookedAt, WriterEnabled, BeginEnabled, ReaderEnabled, CollectorEnabled;
    var r := Apply(s, run[0], hash);
    var end := RunEnd(s, run, hash).readers[id];
    StepKeepsInvariant(s, run[0], hash);
    if n == 0 {
      LoadSees(s, run[0], hash);
      ReaderStays(r, run[1..], hash, id);
      m, p := SearchOfRun(r, run[1..], hash, id);
    } else {
      m, p := GetFromLoad(r, run[1..], hash, id, n - 1);
      LoadIsFirst(s, run, hash, id, n);
      if run[0].RequestDelete? {
        RequesterExists(s, run[0], hash);
      }
    }
    LookedLater(s, run, hash, id, end.seen[end.key], m, p);
    m, p := m + 1, p + 1;
  }

  /** Every finished Get or Exists answers as the map of its load, step n, does: it finds its key
      exactly if the key was stored then. A Get of a stored key returns the entry that was stored then,
      exactly if that had not expired when it looked, in step m, and, where it is for a single read, no
      one had read it when it tried to, in step p. It asks for the delete of its key exactly if it found
      the entry expired or got it for a single read. */
  lemma LookupsAreAtomic(s: State, run: seq<Action>, hash: HashFn, id: nat) returns (n: nat, m: nat, p: nat)
    requires Initial(s, hash) && RunOk(s, run, hash)
    requires id in RunEnd(s, run, hash).readers && RunEnd(s, run, hash).readers[id].phase.Done?
    ensures n < |run| && RunOk(s, run[..n], hash) && run[n].Load? && run[n].r == id
    ensures var r := RunEnd(s, run, hash).readers[id];
            var stored := Stored(RunEnd(s, run[..n], hash), hash);
            r.key == run[n].key && r.isGet == run[n].isGet && (r.phase.present <==> r.key in stored) &&
            (r.phase.answer.Some? ==> r.isGet && r.key in stored && r.phase.answer.value == stored[r.key])
    ensures var r := RunEnd(s, run, hash).readers[id];
            var stored := Stored(RunEnd(s, run[..n], hash), hash);
            if r.isGet && r.key in stored then n < m && LookedAt(s, run, hash, id, stored[r.key], m, p)
            else !AsksDelete(run, id)
  {
    hide Enabled, Apply, Stored, Invariant, LookedAt;
    InitialInvariant(s, hash);
    if AsksDelete(run, id) {
      AsksForStored(s, run, hash, id);
    }
    RunKeepsInvariant(s, run, hash);
    n := SeenAtLoad(s, run, hash, id);
    FoundAsSeen(RunEnd(s, run, hash), id, hash);
    m, p := 0, 0;
    var r := RunEnd(s, run, hash).readers[id];
    if r.isGet && r.key in r.seen {
      m, p := GetFromLoad(s, run, hash, id, n);
    }
  }

  /** A listing of the keys, with writers at work all the time, has every key that was stored at its
      load, step n, once, and no other. */
  lemma KeysAreAtomic(s: State, run: seq<Action>, hash: HashFn, id: nat) returns (n: nat)
    requires Initial(s, hash) && RunOk(s, run, hash)
    requires id in RunEnd(s, run, hash).readers && RunEnd(s, run, hash).readers[id].phase.Listed?
    ensures n < |run| && RunOk(s, run[..n], hash) && run[n].LoadKeys? && run[n].r == id
    ensures multiset(RunEnd(s, run, hash).readers[id].phase.keys) ==
            multiset(Stored(RunEnd(s, run[..n], hash), hash).Keys)
  {
    hide Enabled, Apply, Stored, Invariant;
    InitialInvariant(s, hash);
    RunKeepsInvariant(s, run, hash);
    n := SeenAtLoad(s, run, hash, id);
    FoundAsSeen(RunEnd(s, run, hash), id, hash);
  }

  // ---------- The coalescer ----------

  /** The coalescer has the key: it waits for a flush, or a flush has taken it. */
  ghost predicate Held(s: State, key: Str) {
    key in s.pending || key in InFlight(s)
  }

  /** The step enqueues the key: a delete that a Get asks for, or keys that a tick has found. */
  ghost predicate Enqueues(s: State, a: Action, key: Str) {
    || (a.RequestDelete? && a.r in s.readers && s.readers[a.r].key == key)
    || (a.EnqueueTicked? && s.ticked.Some? && key in s.ticked.value)
  }

  /** Step i hands the key over: with it, a batch delete that holds the key has taken the lock. */
  ghost predicate HandedOver(s: State, run: seq<Action>, hash: HashFn, i: nat, key: Str) {
    && i < |run| && RunOk(s, run[..i + 1], hash) && run[i].BeginFlush?
    && DeletesKey(RunEnd(s, run[..i + 1], hash), key)
  }

  ghost predicate DeletesKey(s: State, key: Str) {
    s.writer.Some? && s.writer.value.job.Drop? && key in s.writer.value.job.keys
  }

  lemma EnqueuedIsHeld(s: State, a: Action, hash: HashFn, key: Str)
    requires Enabled(s, a, hash) && Enqueues(s, a, key)
    ensures Held(Apply(s, a, hash), key)
  {
    hide WriterEnabled, WriterStep, SegAt, SlotOf, Less, Stored, Begin, N.Drain, W.Advance, W.Shape;
  }

  /** No step takes a key from the coalescer but a flush, and that one hands it to deleteBatch. */
  lemma HeldOrHandedOver(s: State, a: Action, hash: HashFn, key: Str)
    requires Enabled(s, a, hash) && Held(s, key)
    ensures Held(Apply(s, a, hash), key) || (a.BeginFlush? && DeletesKey(Apply(s, a, hash), key))
  {
    hide WriterEnabled, WriterStep, CollectorEnabled, CollectorStep, Stored, SegAt, SlotOf, Less, Begin, BeginEnabled;
    if WriterAction(a) {
      WriterNotTouches(s, s.writer.value, a, hash);
    } else if a.BeginSet? || a.BeginDelete? || a.BeginFlush? {
      BeginHolds(s, a, hash, key);
    } else if !ReaderAction(a) {
      CollectorHolds(s, a, key);
    }
  }

  lemma BeginHolds(s: State, a: Action, hash: HashFn, key: Str)
    requires (a.BeginSet? || a.BeginDelete? || a.BeginFlush?) && BeginEnabled(s, a) && Held(s, key)
    ensures Held(Begin(s, a, hash), key) || (a.BeginFlush? && DeletesKey(Begin(s, a, hash), key))
  {
    hide SlotOf, JobKeys;
  }

  lemma CollectorHolds(s: State, a: Action, key: Str)
    requires CollectorEnabled(s, a) && Held(s, key)
    ensures Held(CollectorStep(s, a), key)
  {
    hide NoDuplicates, N.Drain, W.Shape, W.Advance, W.Expired;
  }

  lemma {:induction false} HeldUntilHandedOver(s: State, run: seq<Action>, hash: HashFn, key: Str)
    requires RunOk(s, run, hash) && Held(s, key)
    ensures Held(RunEnd(s, run, hash), key) || exists i: nat :: HandedOver(s, run, hash, i, key)
    decreases |run|
  {
    hide Enabled, Apply, Held, DeletesKey;
    if run != [] {
      var r := Apply(s, run[0], hash);
      HeldOrHandedOver(s, run[0], hash, key);
      if !Held(r, key) {
        assert run[1..][..0] == [];
        PrefixShift(s, run, hash, 0);
        assert HandedOver(s, run, hash, 0, key);
      } else {
        HeldUntilHandedOver(r, run[1..], hash, key);
        if i: nat :| HandedOver(r, run[1..], hash, i, key) {
          PrefixShift(s, run, hash, i + 1);
          assert HandedOver(s, run, hash, i + 1, key);
        }
      }
    }
  }

  /** A key that step n of a run enqueues, whether for the first time or again, is from then on in the
      coalescer until a later flush hands it over. */
  lemma NothingEnqueuedIsLost(s: State, run: seq<Action>, hash: HashFn, n: nat, key: Str)
    requires RunOk(s, run, hash) && n < |run|
    requires RunOk(s, run[..n], hash) && Enqueues(RunEnd(s, run[..n], hash), run[n], key)
    ensures Held(RunEnd(s, run, hash), key) || exists i: nat :: n < i && HandedOver(s, run, hash, i, key)
    decreases n
  {
    hide Enabled, Apply, Held, DeletesKey, Enqueues;
    var r := Apply(s, run[0], hash);
    if n == 0 {
      EnqueuedIsHeld(s, run[0], hash, key);
      HeldUntilHandedOver(r, run[1..], hash, key);
    } else {
      RunSplits(s, run, hash, n);
      RunSplits(r, run[1..], hash, n - 1);
      PrefixShift(s, run, hash, n - 1);
      NothingEnqueuedIsLost(r, run[1..], hash, n - 1, key);
    }
    if i: nat :| n <= i && HandedOver(r, run[1..], hash, i, key) {
      PrefixShift(s, run, hash, i + 1);
      assert HandedOver(s, run, hash, i + 1, key);
    }
  }
}
