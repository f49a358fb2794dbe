/** The hashed timing wheel of the garbage collector. Its state is first given as a value
    with the three operations as functions; class HashedWheel performs them in place and is
    proved against those functions. Module WheelTimers says what the wheel is for: it behaves
    as a flat map from keys to countdown timers. */
module WheelModel {
  import opened GoTypes

  datatype WheelEntry = WheelEntry(key: Str, expireAt: int, rounds: int)

  datatype Wheel = Wheel(slots: seq<seq<WheelEntry>>, pos: int, tickMs: int, keyIndex: map<Str, int>)

  ghost predicate DistinctKeys(entries: seq<WheelEntry>) {
    forall i, j :: 0 <= i < j < |entries| ==> entries[i].key != entries[j].key
  }

  ghost predicate Shape(w: Wheel) {
    && 0 <= w.pos < |w.slots|
    && w.tickMs > 0
    && forall k :: k in w.keyIndex ==> 0 <= w.keyIndex[k] < |w.slots|
  }

  /** keyIndex names, for every key, the slot of its one entry; no entry is unnamed. */
  ghost predicate WheelOk(w: Wheel) {
    && Shape(w)
    && (forall s :: 0 <= s < |w.slots| ==> DistinctKeys(w.slots[s]))
    && (forall s, e :: 0 <= s < |w.slots| && e in w.slots[s] ==>
          e.rounds >= 0 && e.key in w.keyIndex && w.keyIndex[e.key] == s)
    && (forall k :: k in w.keyIndex ==> HasKey(w.slots[w.keyIndex[k]], k))
  }

  ghost predicate HasKey(entries: seq<WheelEntry>, key: Str) {
    exists e :: e in entries && e.key == key
  }

  /** What an entry in the current slot becomes when the wheel advances; None drops it. */
  function StepEntry(e: WheelEntry, nowMs: int): Option<WheelEntry> {
    if e.rounds > 0 then Some(e.(rounds := e.rounds - 1))
    else if TruncDiv(e.expireAt, NANOS_PER_MILLI) <= nowMs then None
    else Some(e)
  }

  function SweepRest(entries: seq<WheelEntry>, nowMs: int): seq<WheelEntry> {
    if entries == [] then [] else
      var n := |entries| - 1;
      SweepRest(entries[..n], nowMs) +
      match StepEntry(entries[n], nowMs) { case Some(e) => [e] case None => [] }
  }

  function SweepDue(entries: seq<WheelEntry>, nowMs: int): seq<Str> {
    if entries == [] then [] else
      var n := |entries| - 1;
      SweepDue(entries[..n], nowMs) + if StepEntry(entries[n], nowMs).None? then [entries[n].key] else []
  }

  function RemoveFirst(entries: seq<WheelEntry>, key: Str): seq<WheelEntry> {
    if entries == [] then []
    else if entries[0].key == key then entries[1..]
    else [entries[0]] + RemoveFirst(entries[1..], key)
  }

  function Remove(w: Wheel, key: Str): (r: Wheel)
    requires Shape(w)
    ensures |r.slots| == |w.slots|
  {
    if key !in w.keyIndex then w else
      var s := w.keyIndex[key];
      w.(slots := w.slots[s := RemoveFirst(w.slots[s], key)], keyIndex := w.keyIndex - {key})
  }

  /** Full ticks between now and the (smeared) deadline; a deadline in the past counts as now. */
  function Ticks(expireAt: int, nowMs: int, tickMs: int): (t: nat)
    requires tickMs > 0
  {
    var delay := TruncDiv(expireAt, NANOS_PER_MILLI) - nowMs;
    (if delay < 0 then 0 else delay) / tickMs
  }

  function Add(w: Wheel, key: Str, expireAt: int, nowMs: int): Wheel
    requires Shape(w)
  {
    var ticks := Ticks(expireAt, nowMs, w.tickMs);
    var slot := (w.pos + ticks) % |w.slots|;
    Place(Remove(w, key), slot, WheelEntry(key, expireAt, ticks / |w.slots|))
  }

  function Place(w: Wheel, slot: int, e: WheelEntry): Wheel
    requires 0 <= slot < |w.slots|
  {
    w.(slots := w.slots[slot := w.slots[slot] + [e]], keyIndex := w.keyIndex[e.key := slot])
  }

  function Next(pos: int, n: int): int {
    if pos + 1 == n then 0 else pos + 1
  }

  function Advance(w: Wheel, nowMs: int): Wheel
    requires Shape(w)
  {
    Wheel(w.slots[w.pos := SweepRest(w.slots[w.pos], nowMs)], Next(w.pos, |w.slots|), w.tickMs,
          w.keyIndex - AsSet(Expired(w, nowMs)))
  }

  function Expired(w: Wheel, nowMs: int): seq<Str>
    requires Shape(w)
  {
    SweepDue(w.slots[w.pos], nowMs)
  }

  // ---------- Slot lemmas ----------

  lemma OneEntryPerKey(entries: seq<WheelEntry>, e: WheelEntry, f: WheelEntry)
    requires DistinctKeys(entries) && e in entries && f in entries && e.key == f.key
    ensures e == f
  {
    var i :| 0 <= i < |entries| && entries[i] == e;
    var j :| 0 <= j < |entries| && entries[j] == f;
    assert i == j;
  }

  /** The survivors of a sweep are the stepped entries, the expired keys those that stepped to None. */
  lemma {:induction false} SweepExact(entries: seq<WheelEntry>, nowMs: int)
    ensures forall r :: r in SweepRest(entries, nowMs) <==> exists e :: e in entries && StepEntry(e, nowMs) == Some(r)
    ensures forall k :: k in SweepDue(entries, nowMs) <==>
              exists e :: e in entries && e.key == k && StepEntry(e, nowMs).None?
  {
    if entries != [] {
      var n := |entries| - 1;
      SweepExact(entries[..n], nowMs);
      assert entries == entries[..n] + [entries[n]];
    }
  }

  lemma AppendDistinct(entries: seq<WheelEntry>, e: WheelEntry)
    requires DistinctKeys(entries) && !HasKey(entries, e.key)
    ensures DistinctKeys(entries + [e])
  {
  }

  lemma SweepKeepsKeys(entries: seq<WheelEntry>, nowMs: int, key: Str)
    requires !HasKey(entries, key)
    ensures !HasKey(SweepRest(entries, nowMs), key) && key !in SweepDue(entries, nowMs)
  {
    SweepExact(entries, nowMs);
  }

  lemma {:induction false} SweepDistinct(entries: seq<WheelEntry>, nowMs: int)
    requires DistinctKeys(entries)
    ensures DistinctKeys(SweepRest(entries, nowMs)) && NoDuplicates(SweepDue(entries, nowMs))
  {
    if entries != [] {
      var n := |entries| - 1;
      SweepDistinct(entries[..n], nowMs);
      SweepKeepsKeys(entries[..n], nowMs, entries[n].key);
      match StepEntry(entries[n], nowMs)
      case Some(e) => AppendDistinct(SweepRest(entries[..n], nowMs), e);
      case None =>
    }
  }

  lemma {:induction false} RemoveFirstSplices(entries: seq<WheelEntry>, key: Str, i: nat)
    requires i <= |entries|
    requires forall j :: 0 <= j < i ==> entries[j].key != key
    requires i < |entries| ==> entries[i].key == key
    ensures RemoveFirst(entries, key) == if i < |entries| then entries[..i] + entries[i + 1..] else entries
  {
    if 0 < i {
      RemoveFirstSplices(entries[1..], key, i - 1);
    }
  }

  lemma {:induction false} RemoveFirstExact(entries: seq<WheelEntry>, key: Str)
    requires DistinctKeys(entries)
    ensures DistinctKeys(RemoveFirst(entries, key))
    ensures forall e :: e in RemoveFirst(entries, key) <==> e in entries && e.key != key
  {
    if entries != [] {
      assert entries == [entries[0]] + entries[1..];
      if entries[0].key == key {
        forall e | e in entries[1..]
          ensures e.key != key
        {
        }
      } else {
        RemoveFirstExact(entries[1..], key);
        forall e | e in entries[1..]
          ensures e.key != entries[0].key
        {
        }
      }
    }
  }

  // ---------- Invariant ----------

  lemma RemoveKeepsOk(w: Wheel, key: Str)
    requires WheelOk(w)
    ensures WheelOk(Remove(w, key)) && key !in Remove(w, key).keyIndex
    ensures forall s, e :: 0 <= s < |w.slots| ==>
              (e in Remove(w, key).slots[s] <==> e in w.slots[s] && e.key != key)
  {
    if key in w.keyIndex {
      var s := w.keyIndex[key];
      RemoveFirstExact(w.slots[s], key);
      var r := Remove(w, key);
      forall k | k in r.keyIndex
        ensures HasKey(r.slots[r.keyIndex[k]], k)
      {
        var e :| e in w.slots[w.keyIndex[k]] && e.key == k;
        assert e in r.slots[r.keyIndex[k]];
      }
    }
  }

  lemma PlaceKeepsOk(w: Wheel, slot: int, e: WheelEntry)
    requires WheelOk(w) && 0 <= slot < |w.slots| && e.key !in w.keyIndex && e.rounds >= 0
    ensures WheelOk(Place(w, slot, e))
    ensures forall s, f :: 0 <= s < |w.slots| ==>
              (f in Place(w, slot, e).slots[s] <==> f in w.slots[s] || (s == slot && f == e))
  {
    var a := Place(w, slot, e);
    assert !HasKey(w.slots[slot], e.key);
    AppendDistinct(w.slots[slot], e);
    forall k | k in a.keyIndex
      ensures HasKey(a.slots[a.keyIndex[k]], k)
    {
      if k == e.key {
        assert e in a.slots[slot];
      } else {
        var f :| f in w.slots[w.keyIndex[k]] && f.key == k;
        assert f in a.slots[a.keyIndex[k]];
      }
    }
  }

  lemma AddKeepsOk(w: Wheel, key: Str, expireAt: int, nowMs: int)
    requires WheelOk(w)
    ensures WheelOk(Add(w, key, expireAt, nowMs))
    ensures Add(w, key, expireAt, nowMs).keyIndex.Keys == w.keyIndex.Keys + {key}
  {
    RemoveKeepsOk(w, key);
    var slot, e := AddShape(w, key, expireAt, nowMs);
    PlaceKeepsOk(Remove(w, key), slot, e);
    assert Add(w, key, expireAt, nowMs) == Place(Remove(w, key), slot, e);
    assert Place(Remove(w, key), slot, e).keyIndex.Keys == Remove(w, key).keyIndex.Keys + {key};
    assert Remove(w, key).keyIndex.Keys == w.keyIndex.Keys - {key};
  }

  lemma AddShape(w: Wheel, key: Str, expireAt: int, nowMs: int) returns (slot: int, e: WheelEntry)
    requires Shape(w)
    ensures var ticks := Ticks(expireAt, nowMs, w.tickMs);
            0 <= slot < |w.slots| && slot == (w.pos + ticks) % |w.slots| &&
            e == WheelEntry(key, expireAt, ticks / |w.slots|) && e.rounds >= 0
    ensures Add(w, key, expireAt, nowMs) == Place(Remove(w, key), slot, e)
  {
    var ticks := Ticks(expireAt, nowMs, w.tickMs);
    slot := (w.pos + ticks) % |w.slots|;
    e := WheelEntry(key, expireAt, ticks / |w.slots|);
  }

  lemma AdvanceKeepsOk(w: Wheel, nowMs: int)
    requires WheelOk(w)
    ensures WheelOk(Advance(w, nowMs))
    ensures NoDuplicates(Expired(w, nowMs))
    ensures forall k :: k in Expired(w, nowMs) ==> k in w.keyIndex && k !in Advance(w, nowMs).keyIndex
  {
    var a := Advance(w, nowMs);
    var here := w.slots[w.pos];
    SweepExact(here, nowMs);
    SweepDistinct(here, nowMs);
    forall s, e | 0 <= s < |a.slots| && e in a.slots[s]
      ensures e.rounds >= 0 && e.key in a.keyIndex && a.keyIndex[e.key] == s
    {
      if s == w.pos {
        var f :| f in here && StepEntry(f, nowMs) == Some(e);
        OneEntryPerKeyAll(here);
      } else {
        assert e in w.slots[s];
      }
    }
    forall k | k in a.keyIndex
      ensures HasKey(a.slots[a.keyIndex[k]], k)
    {
      var e :| e in w.slots[w.keyIndex[k]] && e.key == k;
      if w.keyIndex[k] == w.pos {
        assert StepEntry(e, nowMs).Some?;
        assert StepEntry(e, nowMs).value in a.slots[w.pos];
      } else {
        assert e in a.slots[w.keyIndex[k]];
      }
    }
  }

  lemma OneEntryPerKeyAll(entries: seq<WheelEntry>)
    requires DistinctKeys(entries)
    ensures forall e, f :: e in entries && f in entries && e.key == f.key ==> e == f
  {
    forall e, f | e in entries && f in entries && e.key == f.key
      ensures e == f
    {
      OneEntryPerKey(entries, e, f);
    }
  }

  /** keyIndex[k] = s exactly when the whole wheel holds one entry for k and it lies in slot s. */
  lemma IndexAgreement(w: Wheel, k: Str, s: int)
    requires WheelOk(w)
    ensures k in w.keyIndex && w.keyIndex[k] == s <==>
            0 <= s < |w.slots| &&
            exists i :: 0 <= i < |w.slots[s]| && w.slots[s][i].key == k &&
              forall s', i' ::
                0 <= s' < |w.slots| && 0 <= i' < |w.slots[s']| && w.slots[s'][i'].key == k ==> s' == s && i' == i
  {
    if k in w.keyIndex && w.keyIndex[k] == s {
      var e :| e in w.slots[s] && e.key == k;
      var i :| 0 <= i < |w.slots[s]| && w.slots[s][i] == e;
      forall s', i' | 0 <= s' < |w.slots| && 0 <= i' < |w.slots[s']| && w.slots[s'][i'].key == k
        ensures s' == s && i' == i
      {
        assert w.slots[s'][i'] in w.slots[s'];
      }
    } else if 0 <= s < |w.slots| {
      forall i | 0 <= i < |w.slots[s]|
        ensures w.slots[s][i].key != k
      {
        assert w.slots[s][i] in w.slots[s];
      }
    }
  }
}

module HashedWheels {
  import opened GoTypes
  import opened WheelModel

  function Clamp(n: int, lo: int, hi: int): (c: int)
    requires lo <= hi
    ensures lo <= c <= hi && (lo <= n <= hi ==> c == n) && (n < lo ==> c == lo) && (n > hi ==> c == hi)
  {
    if n < lo then lo else if n > hi then hi else n
  }

  class HashedWheel {
    const slots: array<seq<WheelEntry>>
    const slotCount: int
    const tickMs: int
    var currentPos: int
    const startTime: int
    var keyIndex: map<Str, int>

    ghost function View(): Wheel
      reads this, slots
    {
      Wheel(slots[..], currentPos, tickMs, keyIndex)
    }

    ghost predicate Valid()
      reads this, slots
    {
      slotCount == slots.Length && 100 <= tickMs <= 1000 && WheelOk(View())
    }

    constructor (slotCount: int, tickMs: int, nowMs: int)
      ensures Valid() && fresh(slots)
      ensures View() == Wheel(seq(Clamp(slotCount, 64, 8192), _ => []), 0, Clamp(tickMs, 100, 1000), map[])
    {
      this.slotCount := Clamp(slotCount, 64, 8192);
      this.tickMs := Clamp(tickMs, 100, 1000);
      slots := new seq<WheelEntry>[Clamp(slotCount, 64, 8192)](_ => []);
      currentPos := 0;
      startTime := nowMs;
      keyIndex := map[];
      new;
      assert slots[..] == seq(this.slotCount, _ => []);
    }

    /** smear is the random displacement, of either sign, that Add draws below a quarter tick. */
    method Add(key: Str, expireAt: int, smear: int, nowMs: int)
      requires Valid() && -(tickMs / 4) < smear < tickMs / 4
      modifies this, slots
      ensures Valid() && View() == WheelModel.Add(old(View()), key, expireAt + smear, nowMs)
    {
      hide WheelModel.Add, HasKey, DistinctKeys;
      AddKeepsOk(View(), key, expireAt + smear, nowMs);
      AddSmeared(key, expireAt + smear, nowMs);
    }

    method AddSmeared(key: Str, deadline: int, nowMs: int)
      requires Valid()
      modifies this, slots
      ensures View() == WheelModel.Add(old(View()), key, deadline, nowMs)
    {
      var slot, rounds := Locate(key, deadline, nowMs);
      assert Shape(View());
      hide WheelOk, WheelModel.Remove, WheelModel.Add;
      RemoveLocked(key);
      Insert(slot, WheelEntry(key, deadline, rounds));
    }

    method Insert(slot: int, e: WheelEntry)
      requires 0 <= slot < slots.Length
      modifies this`keyIndex, slots
      ensures View() == Place(old(View()), slot, e)
    {
      slots[slot] := slots[slot] + [e];
      keyIndex := keyIndex[e.key := slot];
    }

    /** The arithmetic of Add: the slot ticks ahead of the current one, and the rounds to wait there. */
    method Locate(key: Str, deadline: int, nowMs: int) returns (slot: int, rounds: int)
      requires Valid()
      ensures 0 <= slot < slotCount
      ensures WheelModel.Add(View(), key, deadline, nowMs) ==
              Place(WheelModel.Remove(View(), key), slot, WheelEntry(key, deadline, rounds))
    {
      ghost var at, added := AddShape(View(), key, deadline, nowMs);
      assert 0 < slotCount == |View().slots|;
      hide WheelOk, WheelModel.Remove, WheelModel.Add;
      var delay := TruncDiv(deadline, NANOS_PER_MILLI) - nowMs;
      if delay < 0 {
        delay := 0;
      }
      var ticks := delay / tickMs;
      slot := (currentPos + ticks) % slotCount;
      rounds := ticks / slotCount;
      assert slot == at && WheelEntry(key, deadline, rounds) == added;
    }

    method Remove(key: Str)
      requires Valid()
      modifies this, slots
      ensures Valid() && View() == WheelModel.Remove(old(View()), key)
    {
      RemoveLocked(key);
    }

    method RemoveLocked(key: Str)
      requires Valid()
      modifies this, slots
      ensures Valid() && View() == WheelModel.Remove(old(View()), key)
      ensures currentPos == old(currentPos)
    {
      RemoveKeepsOk(View(), key);
      hide HasKey, DistinctKeys;
      if key !in keyIndex {
        return;
      }
      var slot := keyIndex[key];
      var entries := slots[slot];
      var i := 0;
      while i < |entries| && entries[i].key != key
        invariant 0 <= i <= |entries|
        invariant forall j :: 0 <= j < i ==> entries[j].key != key
      {
        i := i + 1;
      }
      RemoveFirstSplices(entries, key, i);
      if i < |entries| {
        slots[slot] := entries[..i] + entries[i + 1..];
      }
      keyIndex := keyIndex - {key};
    }

    method Advance(nowMs: int) returns (expired: seq<Str>)
      requires Valid()
      modifies this, slots
      ensures Valid() && View() == WheelModel.Advance(old(View()), nowMs)
      ensures expired == Expired(old(View()), nowMs)
    {
      hide SweepRest, SweepDue, WheelOk, AsSet;
      WheelShape(View());
      AdvanceKeepsOk(View(), nowMs);
      expired := SweepCurrent(nowMs);
      NextWraps(currentPos, slotCount);
      currentPos := (currentPos + 1) % slotCount;
    }

    lemma WheelShape(w: Wheel)
      requires WheelOk(w)
      ensures Shape(w)
    {
    }

    lemma NextWraps(pos: int, n: int)
      requires 0 <= pos < n
      ensures (pos + 1) % n == Next(pos, n) && 0 <= Next(pos, n) < n
    {
    }

    /** The loop of Advance over the current slot, up to and including slot.entries = remaining. */
    method SweepCurrent(nowMs: int) returns (expired: seq<Str>)
      requires slotCount == slots.Length && 0 <= currentPos < slotCount
      modifies this`keyIndex, slots
      ensures slots[..] == old(slots[..])[currentPos := SweepRest(old(slots[currentPos]), nowMs)]
      ensures expired == SweepDue(old(slots[currentPos]), nowMs)
      ensures keyIndex == old(keyIndex) - AsSet(expired)
    {
      ghost var entries := slots[currentPos];
      expired := [];
      var remaining: seq<WheelEntry> := [];
      for i := 0 to |slots[currentPos]|
        invariant |slots[currentPos]| == |entries|
        invariant forall j :: i <= j < |entries| ==> slots[currentPos][j] == entries[j]
        invariant forall s :: 0 <= s < slotCount && s != currentPos ==> slots[s] == old(slots[s])
        invariant remaining == SweepRest(entries[..i], nowMs)
        invariant expired == SweepDue(entries[..i], nowMs)
        invariant keyIndex == old(keyIndex) - AsSet(expired)
      {
        var e := slots[currentPos][i];
        assert entries[..i + 1][..i] == entries[..i];
        if e.rounds > 0 {
          e := e.(rounds := e.rounds - 1);
          slots[currentPos] := slots[currentPos][i := e];
          remaining := remaining + [e];
        } else if TruncDiv(e.expireAt, NANOS_PER_MILLI) <= nowMs {
          expired := expired + [e.key];
          keyIndex := keyIndex - {e.key};
        } else {
          remaining := remaining + [e];
        }
      }
      assert entries[..|entries|] == entries;
      slots[currentPos] := remaining;
    }
  }
}
