/**
 The four statistics printed for a series of intervals (cmd/showmesh-multisync-probe/main.go).
 */
module DurationStats {

  type Duration = int

  ghost predicate IsSorted(s: seq<Duration>) {
    forall i, j :: 0 <= i < j < |s| ==> s[i] <= s[j]
  }

  function Inserted(x: Duration, s: seq<Duration>): (r: seq<Duration>)
    ensures |r| == |s| + 1 && multiset(r) == multiset(s) + multiset{x}
  {
    if s == [] || x <= s[0] then [x] + s
    else
      assert s == [s[0]] + s[1..];
      [s[0]] + Inserted(x, s[1..])
  }

  /** What sort.Slice leaves in the copy; SortedUnique shows that any sort would do. */
  function Sorted(s: seq<Duration>): (r: seq<Duration>)
    ensures |r| == |s| && multiset(r) == multiset(s)
  {
    if s == [] then []
    else
      assert s == [s[0]] + s[1..];
      Inserted(s[0], Sorted(s[1..]))
  }

  /** The index int(p * float64(n - 1)) for p = percent / 100, clamped into the series. */
  function PercentileIndex(n: nat, percent: nat): (idx: nat)
    requires n > 0
    ensures idx < n
  {
    var idx := percent * (n - 1) / 100;
    if idx >= n then n - 1 else idx
  }

  function PercentileDuration(sorted: seq<Duration>, percent: nat): Duration {
    if sorted == [] then 0 else sorted[PercentileIndex(|sorted|, percent)]
  }

  method Summarize(d: seq<Duration>) returns (minD: Duration, medD: Duration, p95D: Duration, maxD: Duration)
    requires d != []
    ensures minD in d && medD in d && p95D in d && maxD in d
    ensures minD <= medD <= p95D <= maxD
    ensures forall x :: x in d ==> minD <= x <= maxD
    ensures StandsAtPercent(d, medD, 50) && StandsAtPercent(d, p95D, 95)
  {
    var sorted := Sorted(d);
    SortedIsSorted(d);
    minD := sorted[0];
    maxD := sorted[|sorted| - 1];
    medD := PercentileDuration(sorted, 50);
    p95D := PercentileDuration(sorted, 95);
    PercentileStands(d, 50);
    PercentileStands(d, 95);
    SameElements(d);
  }

  // ---------------------------------------------------------------------------------------------
  // Ranks
  // ---------------------------------------------------------------------------------------------

  function CountAtMost(s: seq<Duration>, v: Duration): nat {
    if s == [] then 0 else CountAtMost(s[1..], v) + if s[0] <= v then 1 else 0
  }

  function CountAtLeast(s: seq<Duration>, v: Duration): nat {
    if s == [] then 0 else CountAtLeast(s[1..], v) + if s[0] >= v then 1 else 0
  }

  /** `v` can stand at index `k` of the series in order: k + 1 of its values are at most `v` and
      n - k are at least `v`. Said of the series as it arrived, not of any sorted copy. */
  ghost predicate HasRank(s: seq<Duration>, v: Duration, k: nat) {
    CountAtMost(s, v) >= k + 1 && CountAtLeast(s, v) + k >= |s|
  }

  /** `v` has the rank that is `percent` hundredths of the way to the last, rounded down. */
  ghost predicate StandsAtPercent(s: seq<Duration>, v: Duration, percent: nat) {
    exists k: nat :: HasRank(s, v, k) && 100 * k <= percent * (|s| - 1) < 100 * (k + 1)
  }

  lemma {:induction false} InsertedSorted(x: Duration, s: seq<Duration>)
    requires IsSorted(s)
    ensures IsSorted(Inserted(x, s))
  {
    if s != [] && x > s[0] {
      InsertedSorted(x, s[1..]);
      var rest := Inserted(x, s[1..]);
      forall j | 0 <= j < |rest|
        ensures s[0] <= rest[j]
      {
        assert rest[j] in multiset(rest);
        assert rest[j] == x || rest[j] in s[1..];
      }
    }
  }

  lemma {:induction false} SortedIsSorted(s: seq<Duration>)
    ensures IsSorted(Sorted(s))
  {
    if s != [] {
      SortedIsSorted(s[1..]);
      InsertedSorted(s[0], Sorted(s[1..]));
    }
  }

  lemma {:induction false} CountInserted(x: Duration, s: seq<Duration>, v: Duration)
    ensures CountAtMost(Inserted(x, s), v) == CountAtMost(s, v) + if x <= v then 1 else 0
    ensures CountAtLeast(Inserted(x, s), v) == CountAtLeast(s, v) + if x >= v then 1 else 0
  {
    if s != [] && x > s[0] {
      CountInserted(x, s[1..], v);
      var rest := Inserted(x, s[1..]);
      assert ([s[0]] + rest)[1..] == rest;
    } else {
      assert ([x] + s)[1..] == s;
    }
  }

  lemma {:induction false} CountSorted(s: seq<Duration>, v: Duration)
    ensures CountAtMost(Sorted(s), v) == CountAtMost(s, v)
    ensures CountAtLeast(Sorted(s), v) == CountAtLeast(s, v)
  {
    if s != [] {
      CountSorted(s[1..], v);
      CountInserted(s[0], Sorted(s[1..]), v);
    }
  }

  lemma {:induction false} RankInSorted(s: seq<Duration>, v: Duration, k: nat)
    requires k <= |s|
    requires forall i :: 0 <= i < k ==> s[i] <= v
    requires forall i :: k <= i < |s| ==> s[i] >= v
    ensures CountAtMost(s, v) >= k && CountAtLeast(s, v) + k >= |s|
  {
    if s != [] {
      RankInSorted(s[1..], v, if k == 0 then 0 else k - 1);
    }
  }

  /** The sorted copy's entry at `k` has rank `k` in the series as it arrived. */
  lemma RankOfSorted(d: seq<Duration>, k: nat)
    requires k < |d|
    ensures HasRank(d, Sorted(d)[k], k)
  {
    SortedIsSorted(d);
    CountSorted(d, Sorted(d)[k]);
    RankOfEntry(Sorted(d), k);
  }

  lemma {:induction false} IndexOfPercent(n: nat, percent: nat)
    requires n > 0 && percent <= 100
    ensures var k := PercentileIndex(n, percent);
      100 * k <= percent * (n - 1) < 100 * (k + 1)
  {
    AtMostHundredths(n - 1, percent);
    var x, m := percent * (n - 1), n - 1;
    assert x / 100 <= m;
  }

  lemma {:induction false} AtMostHundredths(m: nat, percent: nat)
    requires percent <= 100
    ensures percent * m <= 100 * m
  {
    if m > 0 {
      AtMostHundredths(m - 1, percent);
    }
  }

  lemma PercentileStands(d: seq<Duration>, percent: nat)
    requires d != [] && percent <= 100
    ensures StandsAtPercent(d, PercentileDuration(Sorted(d), percent), percent)
  {
    var k := PercentileIndex(|d|, percent);
    RankOfSorted(d, k);
    IndexOfPercent(|d|, percent);
  }

  lemma RankOfEntry(s: seq<Duration>, k: nat)
    requires IsSorted(s) && k < |s|
    ensures HasRank(s, s[k], k)
  {
    RankInSorted(s, s[k], k);
    RankAtMost(s, s[k], k);
  }

  lemma {:induction false} RankAtMost(s: seq<Duration>, v: Duration, k: nat)
    requires k < |s| && forall i :: 0 <= i <= k ==> s[i] <= v
    ensures CountAtMost(s, v) >= k + 1
  {
    if k > 0 {
      RankAtMost(s[1..], v, k - 1);
    }
  }

  lemma SameElements(d: seq<Duration>)
    ensures forall x :: x in d <==> x in Sorted(d)
  {
    forall x
      ensures x in d <==> x in Sorted(d)
    {
      assert x in d <==> x in multiset(d);
      assert x in Sorted(d) <==> x in multiset(Sorted(d));
    }
  }

  /** Any ordering of the same values is this one, so the statistics do not depend on the sort. */
  lemma {:induction false} SortedUnique(a: seq<Duration>, b: seq<Duration>)
    requires IsSorted(a) && IsSorted(b) && multiset(a) == multiset(b)
    ensures a == b
  {
    assert |a| == |multiset(a)| == |multiset(b)| == |b|;
    if a != [] {
      SameLeast(a, b);
      SameLeast(b, a);
      assert a == [a[0]] + a[1..] && b == [b[0]] + b[1..];
      assert multiset(a[1..]) == multiset(a) - multiset{a[0]};
      assert multiset(b[1..]) == multiset(b) - multiset{a[0]};
      SortedUnique(a[1..], b[1..]);
    }
  }

  lemma SameLeast(a: seq<Duration>, b: seq<Duration>)
    requires a != [] && b != [] && IsSorted(b) && multiset(a) == multiset(b)
    ensures b[0] <= a[0]
  {
    assert a[0] in multiset(b);
    var i :| 0 <= i < |b| && b[i] == a[0];
  }
}
