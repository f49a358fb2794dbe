/** What is stored under a key, its size, and what a reader makes of it. */
module Entries {
  import opened GoTypes

  datatype StorageEntry = StorageEntry(
    value: Str, originalSize: int, ttl: int, createdAt: int, expiresAt: Option<int>,
    singleRead: bool, accessCount: int, lastAccess: int)

  /** The value that a wrapping 32-bit addition leaves for the mathematical sum n. */
  function WrapInt32(n: int): (r: int)
    ensures -0x8000_0000 <= r < 0x8000_0000 && exists k: int :: n == r + k * 0x1_0000_0000
    ensures -0x8000_0000 <= n < 0x8000_0000 ==> r == n
  {
    assert n == n % 0x1_0000_0000 + (n / 0x1_0000_0000) * 0x1_0000_0000;
    assert n == (n % 0x1_0000_0000 - 0x1_0000_0000) + (n / 0x1_0000_0000 + 1) * 0x1_0000_0000;
    var u := n % 0x1_0000_0000;
    if u < 0x8000_0000 then u else u - 0x1_0000_0000
  }

  function EntrySize(key: Str, originalSize: int, value: Str): (n: int)
    ensures n >= 0
    ensures n == 0 <==> key == [] && originalSize <= 0 && value == []
    ensures originalSize == |value| ==> n == |key| + |value|
    ensures originalSize > 0 ==> n == |key| + originalSize
  {
    |key| + if originalSize > 0 then originalSize else |value|
  }

  /** What reading an entry makes of it, what it answers, and whether its key is to be deleted. */
  function Read(e: StorageEntry, now: int, cachedNow: int): (r: (StorageEntry, Option<StorageEntry>, bool))
    ensures r.1.Some? ==> r.1.value == r.0 && r.0.value == e.value && r.0.originalSize == e.originalSize
  {
    if e.expiresAt.Some? && now > e.expiresAt.value then (e, None, true)
    else if e.singleRead then
      if e.accessCount == 0 then
        var f := e.(accessCount := 1);
        (f, Some(f), true)
      else (e, None, false)
    else
      var f := e.(accessCount := WrapInt32(e.accessCount + 1), lastAccess := cachedNow);
      (f, Some(f), false)
  }

  predicate IsExpired(e: StorageEntry, now: int) {
    e.expiresAt.Some? && now > e.expiresAt.value
  }

  /** An entry is answered exactly if it has not expired and, where it is for a single read, was never
      read. The answer is the entry with one more access, whose time is noted unless it is for a
      single read. */
  ghost predicate AnsweredAs(e: StorageEntry, now: int, cachedNow: int, after: StorageEntry,
                             answer: Option<StorageEntry>) {
    && (answer.Some? <==> !IsExpired(e, now) && (e.singleRead ==> e.accessCount == 0))
    && (answer.Some? ==> answer.value == after)
    && after == if answer.None? then e else
       e.(accessCount := WrapInt32(e.accessCount + 1), lastAccess := if e.singleRead then e.lastAccess else cachedNow)
  }

  /** A read asks for the delete of an expired entry and of one that it is the single reader of. */
  ghost predicate Dooms(e: StorageEntry, now: int) {
    IsExpired(e, now) || (e.singleRead && e.accessCount == 0)
  }

  lemma ReadExact(e: StorageEntry, now: int, cachedNow: int)
    ensures var (after, answer, doomed) := Read(e, now, cachedNow);
            AnsweredAs(e, now, cachedNow, after, answer) && (doomed <==> Dooms(e, now))
  {
  }

  /** The answers of any number of reads of one entry, at any times. */
  function Answers(e: StorageEntry, times: seq<(int, int)>): seq<Option<StorageEntry>>
    decreases |times|
  {
    if times == [] then [] else
      var r := Read(e, times[0].0, times[0].1);
      [r.1] + Answers(r.0, times[1..])
  }

  /** A fresh single-read entry answers its first read that is not too late, and no other read. */
  lemma {:induction false} SingleReadAnswersOnce(e: StorageEntry, times: seq<(int, int)>, i: nat)
    requires e.singleRead && e.accessCount in {0, 1} && i < |times|
    decreases |times|
    ensures |Answers(e, times)| == |times|
    ensures Answers(e, times)[i].Some? <==>
              && e.accessCount == 0
              && !(e.expiresAt.Some? && times[i].0 > e.expiresAt.value)
              && forall j :: 0 <= j < i ==> e.expiresAt.Some? && times[j].0 > e.expiresAt.value
  {
    var r := Read(e, times[0].0, times[0].1);
    assert |times| > 1 ==> |Answers(r.0, times[1..])| == |times| - 1 by {
      if |times| > 1 {
        SingleReadAnswersOnce(r.0, times[1..], 0);
      }
    }
    if i > 0 {
      SingleReadAnswersOnce(r.0, times[1..], i - 1);
      assert forall j :: 0 <= j < i - 1 ==> times[1..][j] == times[j + 1];
      assert forall j :: 0 < j < i ==> times[j] == times[1..][j - 1];
    } else if |times| == 1 {
      assert Answers(r.0, times[1..]) == [];
    }
  }
}
