/** Go slices: a window of length len on the front of an array that may be longer. Appending
    writes in place while there is room and moves to a new array when there is none. */
module GoSlices {
  import S = SegmentIndex

  datatype Slice<!T> = Slice(data: array<T>, len: nat) {
    ghost predicate Valid() {
      len <= data.Length
    }

    ghost function Elems(): (s: seq<T>)
      requires Valid()
      reads data
    {
      data[..len]
    }
  }

  /** append([]T(nil), s...) */
  method Clone<T>(s: Slice<T>) returns (r: Slice<T>)
    requires s.Valid()
    ensures r.Valid() && fresh(r.data) && r.Elems() == s.Elems()
  {
    var data := new T[s.len](i requires 0 <= i < s.len <= s.data.Length reads s.data => s.data[i]);
    r := Slice(data, s.len);
  }

  /** append(s, x) */
  method Append<T>(s: Slice<T>, x: T) returns (r: Slice<T>)
    requires s.Valid()
    modifies s.data
    ensures r.Valid() && (r.data == s.data || fresh(r.data))
    ensures r.Elems() == old(s.Elems()) + [x]
  {
    if s.len < s.data.Length {
      s.data[s.len] := x;
      r := Slice(s.data, s.len + 1);
    } else {
      var data := new T[2 * s.len + 1](i requires 0 <= i reads s.data =>
        if i < s.data.Length then s.data[i] else x);
      r := Slice(data, s.len + 1);
    }
  }

  /** append(s, zero); copy(s[i+1:], s[i:]); s[i] = x */
  method InsertAt<T>(s: Slice<T>, i: nat, zero: T, x: T) returns (r: Slice<T>)
    requires s.Valid() && i <= s.len
    modifies s.data
    ensures r.Valid() && (r.data == s.data || fresh(r.data))
    ensures r.Elems() == S.InsertAt(old(s.Elems()), i, x)
  {
    ghost var was := s.Elems();
    r := Append(s, zero);
    forall k | i < k < r.len {
      r.data[k] := r.data[k - 1];
    }
    r.data[i] := x;
    forall k | 0 <= k < r.len
      ensures r.data[k] == S.InsertAt(was, i, x)[k]
    {
      S.InsertAtIndex(was, i, x, k);
    }
  }

  /** append(s[:i], s[i+1:]...) */
  method RemoveAt<T>(s: Slice<T>, i: nat) returns (r: Slice<T>)
    requires s.Valid() && i < s.len
    modifies s.data
    ensures r.Valid() && r.data == s.data
    ensures r.Elems() == S.RemoveAt(old(s.Elems()), i)
  {
    forall k | i <= k < s.len - 1 {
      s.data[k] := s.data[k + 1];
    }
    r := Slice(s.data, s.len - 1);
  }
}
