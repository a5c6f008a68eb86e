/** Types shared by the report engine: optional values, results, and one stored reading. */
module Basics {
  datatype Option<+T> = None | Some(value: T)

  datatype Result<+T, +E> = Ok(value: T) | Err(error: E)

  /** One row as the report engine reads it: instant in microseconds, UTC offset in seconds, value. */
  datatype Obs = Obs(at: int, offset: int, value: real)

  /** Microseconds in a second. */
  const SECOND := 1_000_000

  ghost predicate Rising(s: seq<int>) {
    forall i, j :: 0 <= i < j < |s| ==> s[i] < s[j]
  }

  function Dist(a: int, b: int): nat {
    if a <= b then b - a else a - b
  }

  /** The forward walk of the pairing and of the gate: from position `p` it moves on while the next reading is strictly nearer. */
  function Seek(obs: seq<Obs>, p: nat, t: int): (q: nat)
    requires p <= |obs|
    ensures p <= q <= |obs|
    ensures q == |obs| <==> p == |obs|
    decreases |obs| - p
  {
    if p + 1 < |obs| && Dist(obs[p + 1].at, t) < Dist(obs[p].at, t) then Seek(obs, p + 1, t) else p
  }

  /** What the iterator protocol answers for position `k` of a finished query. */
  function At<T>(s: seq<T>, k: nat): Option<T> {
    if k < |s| then Some(s[k]) else None
  }

  /** A dictionary's answer for a key. */
  function Get<K, V>(entries: map<K, V>, key: K): Option<V> {
    if key in entries then Some(entries[key]) else None
  }

  /** Rows as ORDER BY observed_at_us returns them. */
  ghost predicate Ordered(s: seq<Obs>) {
    forall i, j :: 0 <= i < j < |s| ==> s[i].at <= s[j].at
  }

  /** What the measurement identity gives one source's readings of one sensor. */
  ghost predicate StrictlyIncreasing(s: seq<Obs>) {
    forall i, j :: 0 <= i < j < |s| ==> s[i].at < s[j].at
  }

  predicate InWindow(at: int, start: Option<int>, end: Option<int>) {
    (start.Some? ==> start.value <= at) && (end.Some? ==> at < end.value)
  }

  /** The rows of a half-open window, in order; a missing bound is no bound. */
  function Window(obs: seq<Obs>, start: Option<int>, end: Option<int>): seq<Obs> {
    if obs == [] then []
    else
      var init, last := obs[..|obs| - 1], obs[|obs| - 1];
      Window(init, start, end) + if InWindow(last.at, start, end) then [last] else []
  }

  /** A window holds exactly the rows from its start, if it has one, up to and without its end, if it has one. */
  lemma {:induction false} WindowMembers(obs: seq<Obs>, start: Option<int>, end: Option<int>, o: Obs)
    ensures o in Window(obs, start, end)
            <==> o in obs && (start.Some? ==> start.value <= o.at) && (end.Some? ==> o.at < end.value)
  {
    if obs != [] {
      var init, last := obs[..|obs| - 1], obs[|obs| - 1];
      WindowMembers(init, start, end, o);
      assert obs == init + [last];
    }
  }

  /** Rows [lo, hi) are exactly those of the window. */
  ghost predicate Encloses(obs: seq<Obs>, start: Option<int>, end: Option<int>, lo: int, hi: int) {
    0 <= lo <= hi <= |obs| && forall k :: 0 <= k < |obs| ==> (lo <= k < hi <==> InWindow(obs[k].at, start, end))
  }

  lemma SliceOfPrefix<T>(s: seq<T>, lo: int, hi: int, n: int)
    requires 0 <= lo <= hi <= n <= |s|
    ensures s[..n][lo..hi] == s[lo..hi]
  {
  }

  lemma SliceGrows<T>(s: seq<T>, lo: int, n: int)
    requires 0 <= lo <= n < |s|
    ensures s[lo..n + 1] == s[lo..n] + [s[n]]
  {
  }

  lemma {:induction false} EnclosedIsWindow(obs: seq<Obs>, start: Option<int>, end: Option<int>, lo: int, hi: int)
    requires Encloses(obs, start, end, lo, hi)
    ensures Window(obs, start, end) == obs[lo..hi]
  {
    if obs != [] {
      var n := |obs| - 1;
      EnclosedIsWindow(obs[..n], start, end, Min(lo, n), Min(hi, n));
      SliceOfPrefix(obs, Min(lo, n), Min(hi, n), n);
      if InWindow(obs[n].at, start, end) {
        SliceGrows(obs, lo, n);
      } else {
        assert obs[lo..hi] == obs[Min(lo, n)..Min(hi, n)];
      }
    }
  }

  /** A window of an ordered series is a contiguous piece of it. */
  lemma WindowIsSlice(obs: seq<Obs>, start: Option<int>, end: Option<int>) returns (lo: int, hi: int)
    requires Ordered(obs)
    ensures 0 <= lo <= hi <= |obs| && Window(obs, start, end) == obs[lo..hi]
  {
    lo := 0;
    while lo < |obs| && !InWindow(obs[lo].at, start, end)
      invariant 0 <= lo <= |obs| && forall k :: 0 <= k < lo ==> !InWindow(obs[k].at, start, end)
    {
      lo := lo + 1;
    }
    hi := lo;
    while hi < |obs| && InWindow(obs[hi].at, start, end)
      invariant lo <= hi <= |obs| && forall k :: lo <= k < hi ==> InWindow(obs[k].at, start, end)
    {
      hi := hi + 1;
    }
    EnclosedIsWindow(obs, start, end, lo, hi);
  }

  /** Every instant of the first window belongs to the second. */
  predicate WindowInside(start: Option<int>, end: Option<int>, wideStart: Option<int>, wideEnd: Option<int>) {
    && (wideStart.Some? ==> start.Some? && wideStart.value <= start.value)
    && (wideEnd.Some? ==> end.Some? && end.value <= wideEnd.value)
  }

  lemma {:induction false} WindowOfWindow(obs: seq<Obs>, start: Option<int>, end: Option<int>,
                                          wideStart: Option<int>, wideEnd: Option<int>)
    requires WindowInside(start, end, wideStart, wideEnd)
    ensures Window(Window(obs, wideStart, wideEnd), start, end) == Window(obs, start, end)
  {
    if obs != [] {
      var init, last := obs[..|obs| - 1], obs[|obs| - 1];
      WindowOfWindow(init, start, end, wideStart, wideEnd);
      if InWindow(last.at, wideStart, wideEnd) {
        var wide := Window(init, wideStart, wideEnd);
        assert (wide + [last])[..|wide|] == wide;
        assert Window(obs, wideStart, wideEnd) == wide + [last];
      } else {
        assert Window(obs, wideStart, wideEnd) == Window(init, wideStart, wideEnd);
        assert Window(obs, start, end) == Window(init, start, end) + [];
      }
    }
  }

  function Min(a: int, b: int): int {
    if a <= b then a else b
  }

  function Max(a: int, b: int): int {
    if a <= b then b else a
  }

  lemma Reassociate<T>(a: seq<T>, x: T, b: seq<T>)
    ensures a + ([x] + b) == (a + [x]) + b
  {
  }
}
