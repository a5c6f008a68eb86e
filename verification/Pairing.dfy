/** Pairing the readings of two sensors: one forward walk over both series, each reading used once. */
module Pairing {
  import opened Basics

  /** Positions of a left and a right reading. */
  datatype Link = Link(l: nat, r: nat)

  // ----- the walk, on positions -----

  /** The pairs formed from left position `i` on when right positions below `p` are spent. */
  function Walk(left: seq<Obs>, right: seq<Obs>, tolerance: int, i: nat, p: nat): (links: seq<Link>)
    requires i <= |left| && p <= |right|
    decreases |left| - i
  {
    if i == |left| then []
    else
      var q := Seek(right, p, left[i].at);
      if q == |right| then []
      else if Dist(right[q].at, left[i].at) <= tolerance
      then [Link(i, q)] + Walk(left, right, tolerance, i + 1, q + 1)
      else Walk(left, right, tolerance, i + 1, q)
  }

  ghost predicate InRange(left: seq<Obs>, right: seq<Obs>, links: seq<Link>) {
    forall k :: 0 <= k < |links| ==> links[k].l < |left| && links[k].r < |right|
  }

  /** What is yielded: instant and offset of the left reading, with the difference of the two values. */
  function Differences(left: seq<Obs>, right: seq<Obs>, links: seq<Link>): (ds: seq<Obs>)
    requires InRange(left, right, links)
    ensures |ds| == |links|
  {
    seq(|links|, k requires 0 <= k < |links| =>
      var Link(i, j) := links[k];
      Obs(left[i].at, left[i].offset, left[i].value - right[j].value))
  }

  /** The difference carries the left reading's stamp, and subtracts the right value from the left one. */
  lemma DifferencesAreLeftMinusRight(left: seq<Obs>, right: seq<Obs>, links: seq<Link>, k: nat)
    requires InRange(left, right, links) && k < |links|
    ensures var d, l, r := Differences(left, right, links)[k], left[links[k].l], right[links[k].r];
            d.at == l.at && d.offset == l.offset && d.value == l.value - r.value
  {
  }

  ghost predicate Within(left: seq<Obs>, right: seq<Obs>, tolerance: int, link: Link) {
    link.l < |left| && link.r < |right| && Dist(right[link.r].at, left[link.l].at) <= tolerance
  }

  /** Pairs come out in order on both sides, so no reading is used twice. */
  ghost predicate Increasing(links: seq<Link>) {
    forall a, b :: 0 <= a < b < |links| ==> links[a].l < links[b].l && links[a].r < links[b].r
  }

  /** What the pairs formed from left position `i` and right position `p` on promise. */
  ghost predicate Sound(left: seq<Obs>, right: seq<Obs>, tolerance: int, links: seq<Link>, i: nat, p: nat) {
    && Increasing(links)
    && (forall k :: 0 <= k < |links| ==> Within(left, right, tolerance, links[k]))
    && (forall k :: 0 <= k < |links| ==> i <= links[k].l && p <= links[k].r)
  }

  lemma SoundStep(left: seq<Obs>, right: seq<Obs>, tolerance: int, rest: seq<Link>, i: nat, q: nat)
    requires Within(left, right, tolerance, Link(i, q)) && Sound(left, right, tolerance, rest, i + 1, q + 1)
    ensures Sound(left, right, tolerance, [Link(i, q)] + rest, i, q)
  {
    var links := [Link(i, q)] + rest;
    assert forall k :: 0 < k < |links| ==> links[k] == rest[k - 1];
  }

  /** Pairs never cross, never share a reading, and never reach past the tolerance. */
  lemma {:induction false} WalkIsSound(left: seq<Obs>, right: seq<Obs>, tolerance: int, i: nat, p: nat)
    requires i <= |left| && p <= |right|
    ensures Sound(left, right, tolerance, Walk(left, right, tolerance, i, p), i, p)
    decreases |left| - i
  {
    if i < |left| {
      var q := Seek(right, p, left[i].at);
      if q < |right| {
        if Dist(right[q].at, left[i].at) <= tolerance {
          WalkIsSound(left, right, tolerance, i + 1, q + 1);
          SoundStep(left, right, tolerance, Walk(left, right, tolerance, i + 1, q + 1), i, q);
        } else {
          WalkIsSound(left, right, tolerance, i + 1, q);
        }
      }
    }
  }

  /** A one-to-one matching within tolerance, with no order asked of it. */
  ghost predicate Matching(left: seq<Obs>, right: seq<Obs>, tolerance: int, m: set<Link>) {
    && (forall x :: x in m ==> Within(left, right, tolerance, x))
    && (forall x, y :: x in m && y in m && x != y ==> x.l != y.l && x.r != y.r)
  }

  function Links(links: seq<Link>): set<Link> {
    set x | x in links
  }

  lemma {:induction false} SizeOfLinks(links: seq<Link>)
    requires Increasing(links)
    ensures |Links(links)| == |links|
  {
    if links != [] {
      var rest := links[..|links| - 1];
      var last := links[|links| - 1];
      SizeOfLinks(rest);
      assert links == rest + [last];
      assert Links(links) == Links(rest) + {last};
    }
  }

  /** The pairs emitted form a one-to-one matching, in both series' order. */
  lemma {:induction false} WalkIsMatching(left: seq<Obs>, right: seq<Obs>, tolerance: int)
    ensures var links := Walk(left, right, tolerance, 0, 0);
            && Matching(left, right, tolerance, Links(links))
            && |Links(links)| == |links| <= |left| && |links| <= |right|
  {
    var links := Walk(left, right, tolerance, 0, 0);
    WalkIsSound(left, right, tolerance, 0, 0);
    SizeOfLinks(links);
    if links != [] {
      AtLeastIndex(links, |links| - 1);
      assert Within(left, right, tolerance, links[|links| - 1]);
    }
  }

  lemma {:induction false} AtLeastIndex(links: seq<Link>, k: nat)
    requires Increasing(links) && k < |links|
    ensures k <= links[k].l && k <= links[k].r
  {
    if k > 0 {
      AtLeastIndex(links, k - 1);
    }
  }

  // ----- when the walk is a maximum matching -----

  /** Consecutive readings at least `gap` apart. */
  ghost predicate GapsAtLeast(s: seq<Obs>, gap: int) {
    forall k :: 0 <= k < |s| - 1 ==> s[k + 1].at - s[k].at >= gap
  }

  /** No one-to-one matching within tolerance is larger than what the walk emits. */
  ghost predicate WalkIsMaximum(left: seq<Obs>, right: seq<Obs>, tolerance: int) {
    forall m: set<Link> :: Matching(left, right, tolerance, m) ==> |m| <= |Walk(left, right, tolerance, 0, 0)|
  }

  /** The walk stops on the nearest of the unspent readings; every reading it passes lies past its midpoint. */
  lemma {:induction false} SeekStopsAtNearest(right: seq<Obs>, p: nat, t: int)
    requires p < |right| && StrictlyIncreasing(right)
    ensures var q := Seek(right, p, t);
            && (forall k :: p <= k < q ==> right[k].at + right[k + 1].at < 2 * t)
            && (forall k :: p <= k < |right| ==> Dist(right[q].at, t) <= Dist(right[k].at, t))
            && (forall k :: p <= k < q ==> Dist(right[q].at, t) < Dist(right[k].at, t))
    decreases |right| - p
  {
    if p + 1 < |right| {
      if Dist(right[p + 1].at, t) < Dist(right[p].at, t) {
        SeekStopsAtNearest(right, p + 1, t);
      } else {
        assert forall k :: p < k < |right| ==> right[p + 1].at <= right[k].at;
      }
    }
  }

  /** A matching that touches only unspent readings. */
  ghost predicate From(m: set<Link>, i: nat, p: nat) {
    forall x :: x in m ==> i <= x.l && p <= x.r
  }

  lemma FarApart(s: seq<Obs>, gap: int, j: nat, k: nat)
    requires j < k < |s| && GapsAtLeast(s, gap) && gap >= 0
    ensures s[k].at - s[j].at >= gap
    decreases k - j
  {
    if j + 1 < k {
      FarApart(s, gap, j + 1, k);
    }
  }

  /** Readings the walk has moved past are out of reach of every later left reading. */
  lemma {:induction false} PassedOutOfReach(left: seq<Obs>, right: seq<Obs>, tolerance: int, m: set<Link>, i: nat, p: nat)
    requires i < |left| && p < |right|
    requires StrictlyIncreasing(left) && StrictlyIncreasing(right)
    requires GapsAtLeast(right, 2 * tolerance)
    requires Matching(left, right, tolerance, m) && From(m, i, p)
    ensures From(m, i, Seek(right, p, left[i].at))
  {
    var t := left[i].at;
    SeekStopsAtNearest(right, p, t);
    forall x | x in m
      ensures Seek(right, p, t) <= x.r
    {
      var k := x.r;
      assert Within(left, right, tolerance, x);
      assert t <= left[x.l].at;
      assert k + 1 < |right| ==> right[k + 1].at - right[k].at >= 2 * tolerance;
    }
  }

  /** Pairing reading `i` with its nearest spends at most one pair of any other matching. */
  lemma PairingCostsOne(left: seq<Obs>, right: seq<Obs>, tolerance: int, m: set<Link>, i: nat, q: nat)
    returns (rest: set<Link>)
    requires i < |left| && q < |right| && tolerance >= 0
    requires StrictlyIncreasing(left) && StrictlyIncreasing(right)
    requires GapsAtLeast(right, 2 * tolerance)
    requires Matching(left, right, tolerance, m) && From(m, i, q)
    requires Dist(right[q].at, left[i].at) <= tolerance
    ensures Matching(left, right, tolerance, rest) && From(rest, i + 1, q + 1)
    ensures |m| <= 1 + |rest|
  {
    var spent := set x | x in m && (x.l == i || x.r == q);
    rest := m - spent;
    forall x, y | x in spent && y in spent
      ensures x == y
    {
      assert Within(left, right, tolerance, x) && Within(left, right, tolerance, y);
      if x.r > q {
        FarApart(right, 2 * tolerance, q, x.r);
      }
      if y.r > q {
        FarApart(right, 2 * tolerance, q, y.r);
      }
    }
    if spent != {} {
      var x :| x in spent;
      assert spent == {x};
    }
    assert |m| == |rest| + |spent|;
  }

  lemma WalkCounts(left: seq<Obs>, right: seq<Obs>, tolerance: int, i: nat, p: nat)
    requires i < |left| && p < |right|
    ensures var q := Seek(right, p, left[i].at);
            |Walk(left, right, tolerance, i, p)|
            == if Dist(right[q].at, left[i].at) <= tolerance then 1 + |Walk(left, right, tolerance, i + 1, q + 1)|
               else |Walk(left, right, tolerance, i + 1, q)|
  {
  }

  lemma NothingLeftToPair(left: seq<Obs>, right: seq<Obs>, tolerance: int, m: set<Link>, i: nat, p: nat)
    requires i == |left| || p == |right|
    requires Matching(left, right, tolerance, m) && From(m, i, p)
    ensures m == {}
  {
    assert forall x :: x in m ==> Within(left, right, tolerance, x);
  }

  lemma {:induction false} NoMatchingIsLarger(left: seq<Obs>, right: seq<Obs>, tolerance: int, m: set<Link>, i: nat, p: nat)
    requires i <= |left| && p <= |right| && tolerance >= 0
    requires StrictlyIncreasing(left) && StrictlyIncreasing(right)
    requires GapsAtLeast(right, 2 * tolerance)
    requires Matching(left, right, tolerance, m) && From(m, i, p)
    ensures |m| <= |Walk(left, right, tolerance, i, p)|
    decreases |left| - i
  {
    if i == |left| || p == |right| {
      NothingLeftToPair(left, right, tolerance, m, i, p);
    } else {
      var q := Seek(right, p, left[i].at);
      WalkCounts(left, right, tolerance, i, p);
      PassedOutOfReach(left, right, tolerance, m, i, p);
      if Dist(right[q].at, left[i].at) <= tolerance {
        var rest := PairingCostsOne(left, right, tolerance, m, i, q);
        NoMatchingIsLarger(left, right, tolerance, rest, i + 1, q + 1);
      } else {
        OutOfReach(left, right, tolerance, m, i, p);
        NoMatchingIsLarger(left, right, tolerance, m, i + 1, q);
      }
    }
  }

  /** A reading whose nearest unspent partner is too far has none at all. */
  lemma {:induction false} OutOfReach(left: seq<Obs>, right: seq<Obs>, tolerance: int, m: set<Link>, i: nat, p: nat)
    requires i < |left| && p < |right| && StrictlyIncreasing(right)
    requires Matching(left, right, tolerance, m) && From(m, i, p)
    requires From(m, i, Seek(right, p, left[i].at))
    requires Dist(right[Seek(right, p, left[i].at)].at, left[i].at) > tolerance
    ensures From(m, i + 1, Seek(right, p, left[i].at))
  {
    SeekStopsAtNearest(right, p, left[i].at);
    forall x | x in m ensures i + 1 <= x.l {
      assert Within(left, right, tolerance, x);
    }
  }

  /** A left series on which the walk falls short whenever one gap on the right is too small:
      each reading stands exactly `tolerance` after a right reading, from position `k` on. */
  function Late(right: seq<Obs>, tolerance: int, k: nat): (left: seq<Obs>)
    requires k <= |right|
    ensures |left| == |right| - k
  {
    seq(|right| - k, m requires 0 <= m < |right| - k => right[k + m].(at := right[k + m].at + tolerance))
  }

  lemma {:induction false} SeekPasses(right: seq<Obs>, p: nat, k: nat, t: int)
    requires p <= k && k + 1 < |right| && StrictlyIncreasing(right)
    requires right[k].at <= t && Dist(right[k + 1].at, t) < Dist(right[k].at, t)
    ensures Seek(right, p, t) > k
    decreases k - p
  {
    if p < k {
      SeekPasses(right, p + 1, k, t);
    }
  }

  lemma {:induction false} WalkFallsShort(right: seq<Obs>, tolerance: int, k: nat)
    requires StrictlyIncreasing(right) && k + 1 < |right|
    requires right[k + 1].at - right[k].at < 2 * tolerance
    ensures |Walk(Late(right, tolerance, k), right, tolerance, 0, 0)| < |right| - k
  {
    var left := Late(right, tolerance, k);
    var t := left[0].at;
    SeekPasses(right, 0, k, t);
    var q := Seek(right, 0, t);
    var links := Walk(left, right, tolerance, 0, 0);
    WalkIsSound(left, right, tolerance, 1, q);
    assert links == Walk(left, right, tolerance, 1, q) || links == [Link(0, q)] + Walk(left, right, tolerance, 1, q + 1);
    WalkIsSound(left, right, tolerance, 0, 0);
    if |links| > 0 {
      RightIndexGrows(links, |links| - 1);
      assert Within(left, right, tolerance, links[|links| - 1]);
      assert links[0].r > k;
    }
  }

  lemma SmallGapLosesAPair(right: seq<Obs>, tolerance: int, k: nat)
    requires StrictlyIncreasing(right) && k + 1 < |right|
    requires right[k + 1].at - right[k].at < 2 * tolerance
    ensures StrictlyIncreasing(Late(right, tolerance, k))
    ensures !WalkIsMaximum(Late(right, tolerance, k), right, tolerance)
  {
    var left := Late(right, tolerance, k);
    WalkFallsShort(right, tolerance, k);
    LateMatches(right, tolerance, k);
  }

  /** Every late reading has its own partner in reach: the reading it was shifted from. */
  lemma LateMatches(right: seq<Obs>, tolerance: int, k: nat)
    requires k <= |right| && tolerance >= 0
    ensures exists m: set<Link> :: Matching(Late(right, tolerance, k), right, tolerance, m) && |m| == |right| - k
  {
    var left := Late(right, tolerance, k);
    var identity := seq(|left|, m requires 0 <= m < |left| => Link(m, k + m));
    SizeOfLinks(identity);
    forall x | x in Links(identity)
      ensures Within(left, right, tolerance, x) && x.r == k + x.l
    {
      var m :| 0 <= m < |identity| && identity[m] == x;
    }
    assert Matching(left, right, tolerance, Links(identity));
  }

  lemma {:induction false} RightIndexGrows(links: seq<Link>, n: nat)
    requires Increasing(links) && n < |links|
    ensures links[n].r >= links[0].r + n
  {
    if n > 0 {
      RightIndexGrows(links, n - 1);
    }
  }

  /** The tolerance the walk tolerates, exactly: a series of partners makes the single forward walk reach the
      maximum matching whatever it is paired against if and only if its readings stay two tolerances apart. */
  lemma MaximumExactlyWhenSpaced(right: seq<Obs>, tolerance: int)
    requires StrictlyIncreasing(right) && tolerance >= 0
    ensures GapsAtLeast(right, 2 * tolerance)
            <==> forall left :: StrictlyIncreasing(left) ==> WalkIsMaximum(left, right, tolerance)
  {
    if GapsAtLeast(right, 2 * tolerance) {
      forall left, m: set<Link> | StrictlyIncreasing(left) && Matching(left, right, tolerance, m)
        ensures |m| <= |Walk(left, right, tolerance, 0, 0)|
      {
        NoMatchingIsLarger(left, right, tolerance, m, 0, 0);
      }
    } else {
      var k :| 0 <= k < |right| - 1 && right[k + 1].at - right[k].at < 2 * tolerance;
      SmallGapLosesAPair(right, tolerance, k);
    }
  }

  function AllWithin(left: seq<Obs>, right: seq<Obs>, tolerance: int): set<Link> {
    set i, j | 0 <= i < |left| && 0 <= j < |right| && Dist(right[j].at, left[i].at) <= tolerance :: Link(i, j)
  }

  lemma SpacedReachOne(s: seq<Obs>, tolerance: int, t: int, j: nat, k: nat)
    requires GapsAtLeast(s, 2 * tolerance + 1) && tolerance >= 0 && j < |s| && k < |s|
    requires Dist(s[j].at, t) <= tolerance && Dist(s[k].at, t) <= tolerance
    ensures j == k
  {
    if j < k {
      FarApart(s, 2 * tolerance + 1, j, k);
    } else if k < j {
      FarApart(s, 2 * tolerance + 1, k, j);
    }
  }

  lemma AllWithinIsMatching(left: seq<Obs>, right: seq<Obs>, tolerance: int)
    requires tolerance >= 0
    requires GapsAtLeast(left, 2 * tolerance + 1) && GapsAtLeast(right, 2 * tolerance + 1)
    ensures Matching(left, right, tolerance, AllWithin(left, right, tolerance))
  {
    var all := AllWithin(left, right, tolerance);
    forall x, y | x in all && y in all && (x.l == y.l || x.r == y.r)
      ensures x == y
    {
      if x.l == y.l {
        SpacedReachOne(right, tolerance, left[x.l].at, x.r, y.r);
      } else {
        SpacedReachOne(left, tolerance, right[x.r].at, x.l, y.l);
      }
    }
  }

  lemma SubsetOfSameSize<T>(a: set<T>, b: set<T>)
    requires a <= b && |b| <= |a|
    ensures a == b
  {
    assert b == a + (b - a);
    assert |b| == |a| + |b - a|;
  }

  /** When both series stay more than two tolerances apart, the walk emits exactly the pairs within tolerance. */
  lemma {:induction false} EmitsEveryPairWhenBothSpaced(left: seq<Obs>, right: seq<Obs>, tolerance: int)
    requires StrictlyIncreasing(left) && StrictlyIncreasing(right) && tolerance >= 0
    requires GapsAtLeast(left, 2 * tolerance + 1) && GapsAtLeast(right, 2 * tolerance + 1)
    ensures Links(Walk(left, right, tolerance, 0, 0)) == AllWithin(left, right, tolerance)
  {
    var links := Walk(left, right, tolerance, 0, 0);
    AllWithinIsMatching(left, right, tolerance);
    NoMatchingIsLarger(left, right, tolerance, AllWithin(left, right, tolerance), 0, 0);
    WalkIsMatching(left, right, tolerance);
    forall x | x in Links(links)
      ensures x in AllWithin(left, right, tolerance)
    {
      assert Within(left, right, tolerance, x);
    }
    SubsetOfSameSize(Links(links), AllWithin(left, right, tolerance));
  }

  // ----- which pairs, exactly -----

  /** Where the walk stands when it comes to left reading `l`. */
  ghost function Cursor(left: seq<Obs>, right: seq<Obs>, tolerance: int, l: nat): (p: nat)
    requires l <= |left|
    ensures p <= |right|
  {
    if l == 0 then 0 else After(left, right, tolerance, l - 1, Cursor(left, right, tolerance, l - 1))
  }

  /** And where it stands when it is done with it. */
  ghost function After(left: seq<Obs>, right: seq<Obs>, tolerance: int, l: nat, p: nat): (next: nat)
    requires l < |left| && p <= |right|
    ensures p <= next <= |right|
  {
    var q := Seek(right, p, left[l].at);
    if q < |right| && Dist(right[q].at, left[l].at) <= tolerance then q + 1 else q
  }

  lemma WalkStep(left: seq<Obs>, right: seq<Obs>, tolerance: int, l: nat, p: nat) returns (first: seq<Link>)
    requires l < |left| && p <= |right|
    ensures Walk(left, right, tolerance, l, p) == first + Walk(left, right, tolerance, l + 1, After(left, right, tolerance, l, p))
    ensures forall k :: 0 <= k < |first| ==> first[k].l == l
  {
    var q := Seek(right, p, left[l].at);
    if q < |right| && Dist(right[q].at, left[l].at) <= tolerance {
      first := [Link(l, q)];
    } else {
      first := [];
      NothingLeft(left, right, tolerance, l + 1, q);
    }
  }

  lemma {:induction false} NothingLeft(left: seq<Obs>, right: seq<Obs>, tolerance: int, l: nat, q: nat)
    requires l <= |left| && q <= |right|
    ensures q == |right| ==> Walk(left, right, tolerance, l, q) == []
  {
  }

  lemma AppendTwice(a: seq<Link>, b: seq<Link>, c: seq<Link>)
    ensures a + (b + c) == (a + b) + c
  {
  }

  lemma {:induction false} WalkSplits(left: seq<Obs>, right: seq<Obs>, tolerance: int, l: nat) returns (before: seq<Link>)
    requires l <= |left|
    ensures Walk(left, right, tolerance, 0, 0) == before + Walk(left, right, tolerance, l, Cursor(left, right, tolerance, l))
    ensures forall k :: 0 <= k < |before| ==> before[k].l < l
  {
    if l == 0 {
      before := [];
      assert [] + Walk(left, right, tolerance, 0, 0) == Walk(left, right, tolerance, 0, 0);
    } else {
      var earlier := WalkSplits(left, right, tolerance, l - 1);
      var p := Cursor(left, right, tolerance, l - 1);
      var first := WalkStep(left, right, tolerance, l - 1, p);
      AppendTwice(earlier, first, Walk(left, right, tolerance, l, After(left, right, tolerance, l - 1, p)));
      before := earlier + first;
    }
  }

  lemma {:induction false} LinkedAtCursor(left: seq<Obs>, right: seq<Obs>, tolerance: int, l: nat, r: nat)
    requires l < |left|
    ensures var p := Cursor(left, right, tolerance, l);
            Link(l, r) in Walk(left, right, tolerance, 0, 0)
            <==> r < |right| && r == Seek(right, p, left[l].at) && Dist(right[r].at, left[l].at) <= tolerance
  {
    var p := Cursor(left, right, tolerance, l);
    var before := WalkSplits(left, right, tolerance, l);
    var rest := Walk(left, right, tolerance, l, p);
    var q := Seek(right, p, left[l].at);
    assert Link(l, r) in before + rest <==> Link(l, r) in rest;
    if q < |right| {
      if Dist(right[q].at, left[l].at) <= tolerance {
        WalkIsSound(left, right, tolerance, l + 1, q + 1);
        var tail := Walk(left, right, tolerance, l + 1, q + 1);
        assert rest == [Link(l, q)] + tail;
        assert Link(l, r) !in tail;
      } else {
        WalkIsSound(left, right, tolerance, l + 1, q);
        assert Link(l, r) !in rest;
      }
    }
  }

  /** The next right reading is strictly nearer to left reading `l` than reading `r` is. */
  ghost predicate Outdone(left: seq<Obs>, right: seq<Obs>, l: nat, r: nat) {
    l < |left| && r + 1 < |right| && Dist(right[r + 1].at, left[l].at) < Dist(right[r].at, left[l].at)
  }

  /** Right reading `r` is no longer to be had at left reading `l`: an earlier one was paired with it, or was nearer to the next. */
  ghost predicate Gone(left: seq<Obs>, right: seq<Obs>, links: seq<Link>, l: nat, r: nat) {
    exists e: nat :: e < l && (Link(e, r) in links || Outdone(left, right, e, r))
  }

  lemma {:induction false} OutdoneExactlyBeforeNearest(left: seq<Obs>, right: seq<Obs>, p: nat, l: nat, r: nat)
    requires StrictlyIncreasing(right) && l < |left| && p <= r < |right|
    ensures Outdone(left, right, l, r) <==> r < Seek(right, p, left[l].at)
  {
    SeekStopsAtNearest(right, p, left[l].at);
  }

  lemma {:induction false} CursorMovesOn(left: seq<Obs>, right: seq<Obs>, tolerance: int, l: nat, p: nat, r: nat)
    requires StrictlyIncreasing(right) && l < |left| && p <= r < |right|
    ensures r < After(left, right, tolerance, l, p)
            <==> Outdone(left, right, l, r) || (r == Seek(right, p, left[l].at) && Dist(right[r].at, left[l].at) <= tolerance)
  {
    OutdoneExactlyBeforeNearest(left, right, p, l, r);
  }

  /** Right reading `r` is the one left reading `l` is paired with. */
  ghost predicate Taken(left: seq<Obs>, right: seq<Obs>, tolerance: int, l: nat, r: nat)
    requires l < |left|
  {
    r < |right| && r == Seek(right, Cursor(left, right, tolerance, l), left[l].at) && Dist(right[r].at, left[l].at) <= tolerance
  }

  lemma CursorCoversOneMore(left: seq<Obs>, right: seq<Obs>, tolerance: int, l: nat, r: nat)
    requires StrictlyIncreasing(right) && 0 < l <= |left| && r < |right|
    requires r >= Cursor(left, right, tolerance, l - 1)
    ensures r < Cursor(left, right, tolerance, l) <==> Taken(left, right, tolerance, l - 1, r) || Outdone(left, right, l - 1, r)
  {
    CursorMovesOn(left, right, tolerance, l - 1, Cursor(left, right, tolerance, l - 1), r);
  }

  lemma {:induction false} LinkedIsTaken(left: seq<Obs>, right: seq<Obs>, tolerance: int, links: seq<Link>, l: nat, r: nat)
    requires l < |left| && links == Walk(left, right, tolerance, 0, 0)
    ensures Link(l, r) in links <==> Taken(left, right, tolerance, l, r)
  {
    LinkedAtCursor(left, right, tolerance, l, r);
  }

  lemma CursorNeverFalls(left: seq<Obs>, right: seq<Obs>, tolerance: int, l: nat)
    requires 0 < l <= |left|
    ensures Cursor(left, right, tolerance, l - 1) <= Cursor(left, right, tolerance, l)
  {
  }

  lemma {:induction false} GoneExactlyBelowCursor(left: seq<Obs>, right: seq<Obs>, tolerance: int, links: seq<Link>, l: nat, r: nat)
    requires StrictlyIncreasing(right) && l <= |left| && r < |right| && links == Walk(left, right, tolerance, 0, 0)
    ensures Gone(left, right, links, l, r) <==> r < Cursor(left, right, tolerance, l)
  {
    if l > 0 {
      GoneExactlyBelowCursor(left, right, tolerance, links, l - 1, r);
      GoneOneMore(left, right, links, l, r);
      CursorNeverFalls(left, right, tolerance, l);
      if r >= Cursor(left, right, tolerance, l - 1) {
        LinkedIsTaken(left, right, tolerance, links, l - 1, r);
        CursorCoversOneMore(left, right, tolerance, l, r);
      }
    }
  }

  lemma GoneOneMore(left: seq<Obs>, right: seq<Obs>, links: seq<Link>, l: nat, r: nat)
    requires l > 0
    ensures Gone(left, right, links, l, r)
            <==> Gone(left, right, links, l - 1, r) || Link(l - 1, r) in links || Outdone(left, right, l - 1, r)
  {
  }

  /** A left reading is paired with a right one if and only if that is the nearest still to be had, the earlier of two
      equally near, and in reach; so one left unpaired had nothing still to be had in reach. */
  lemma {:induction false} PairedExactlyWithNearestInReach(left: seq<Obs>, right: seq<Obs>, tolerance: int, l: nat, r: nat)
    requires StrictlyIncreasing(right) && l < |left| && r < |right|
    ensures var links := Walk(left, right, tolerance, 0, 0);
            Link(l, r) in links
            <==> && !Gone(left, right, links, l, r) && Dist(right[r].at, left[l].at) <= tolerance
                 && forall s: nat :: s < |right| && !Gone(left, right, links, l, s) ==>
                      Dist(right[r].at, left[l].at) < Dist(right[s].at, left[l].at)
                      || (Dist(right[r].at, left[l].at) == Dist(right[s].at, left[l].at) && r <= s)
  {
    var links, p := Walk(left, right, tolerance, 0, 0), Cursor(left, right, tolerance, l);
    forall s: nat | s < |right| ensures Gone(left, right, links, l, s) <==> s < p {
      GoneExactlyBelowCursor(left, right, tolerance, links, l, s);
    }
    LinkedAtCursor(left, right, tolerance, l, r);
    if p < |right| {
      SeekStopsAtNearest(right, p, left[l].at);
    }
  }

  lemma {:induction false} UnpairedHadNothingInReach(left: seq<Obs>, right: seq<Obs>, tolerance: int, l: nat, s: nat)
    requires StrictlyIncreasing(right) && l < |left| && s < |right|
    requires forall r: nat :: Link(l, r) !in Walk(left, right, tolerance, 0, 0)
    requires !Gone(left, right, Walk(left, right, tolerance, 0, 0), l, s)
    ensures Dist(right[s].at, left[l].at) > tolerance
  {
    var p := Cursor(left, right, tolerance, l);
    GoneExactlyBelowCursor(left, right, tolerance, Walk(left, right, tolerance, 0, 0), l, s);
    SeekStopsAtNearest(right, p, left[l].at);
    LinkedAtCursor(left, right, tolerance, l, Seek(right, p, left[l].at));
  }

  // ----- the loop -----

  lemma DifferencesAppend(left: seq<Obs>, right: seq<Obs>, links: seq<Link>, link: Link)
    requires InRange(left, right, links) && link.l < |left| && link.r < |right|
    ensures InRange(left, right, links + [link])
    ensures Differences(left, right, links + [link])
            == Differences(left, right, links)
               + [Obs(left[link.l].at, left[link.l].offset, left[link.l].value - right[link.r].value)]
  {
  }

  lemma {:induction false} InRangeOfWalk(left: seq<Obs>, right: seq<Obs>, tolerance: int)
    ensures InRange(left, right, Walk(left, right, tolerance, 0, 0))
  {
    WalkIsSound(left, right, tolerance, 0, 0);
    var links := Walk(left, right, tolerance, 0, 0);
    forall k | 0 <= k < |links| ensures links[k].l < |left| && links[k].r < |right| {
      assert Within(left, right, tolerance, links[k]);
    }
  }

  datatype PairingError = NegativeTolerance

  method Pairs(left: seq<Obs>, right: seq<Obs>, tolerance: int) returns (result: Result<seq<Obs>, PairingError>)
    ensures tolerance < 0 ==> result == Err(NegativeTolerance)
    ensures tolerance >= 0 ==>
              var links := Walk(left, right, tolerance, 0, 0);
              InRange(left, right, links) && result == Ok(Differences(left, right, links))
  {
    if tolerance < 0 {
      return Err(NegativeTolerance);
    }
    InRangeOfWalk(left, right, tolerance);
    ghost var links: seq<Link> := [];
    ghost var p: nat := 0;
    var emitted: seq<Obs> := [];
    var partner, upcoming, cursor := At(right, 0), At(right, 1), 2;
    var i := 0;
    while i < |left|
      invariant 0 <= i <= |left| && p <= |right|
      invariant partner == At(right, p) && upcoming == At(right, p + 1) && cursor == p + 2
      invariant Walk(left, right, tolerance, 0, 0) == links + Walk(left, right, tolerance, i, p)
      invariant InRange(left, right, links) && emitted == Differences(left, right, links)
    {
      var reading := left[i];
      ghost var start := p;
      while upcoming.Some? && partner.Some? && Dist(upcoming.value.at, reading.at) < Dist(partner.value.at, reading.at)
        invariant start <= p <= |right|
        invariant partner == At(right, p) && upcoming == At(right, p + 1) && cursor == p + 2
        invariant Seek(right, p, reading.at) == Seek(right, start, reading.at)
        decreases |right| - p
      {
        partner, upcoming, cursor := upcoming, At(right, cursor), cursor + 1;
        p := p + 1;
      }
      if partner.None? {
        assert links + [] == links;
        return Ok(emitted);
      }
      if Dist(partner.value.at, reading.at) <= tolerance {
        ghost var was := links;
        DifferencesAppend(left, right, links, Link(i, p));
        links := links + [Link(i, p)];
        emitted := emitted + [Obs(reading.at, reading.offset, reading.value - partner.value.value)];
        Reassociate(was, Link(i, p), Walk(left, right, tolerance, i + 1, p + 1));
        partner, upcoming, cursor := upcoming, At(right, cursor), cursor + 1;
        p := p + 1;
      }
      i := i + 1;
    }
    assert links + [] == links;
    return Ok(emitted);
  }
}
