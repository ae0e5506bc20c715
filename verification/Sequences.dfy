/**
 Facts about filtering, trimming and embedding sequences that several models share.
 */
module Sequences {

  datatype Option<+T> = None | Some(value: T)

  /** The elements of `s` that satisfy `p`, in order. */
  function Filter<T>(s: seq<T>, p: T -> bool): (r: seq<T>)
    ensures |r| <= |s|
  {
    if s == [] then []
    else
      var last := s[|s| - 1];
      Filter(s[..|s| - 1], p) + if p(last) then [last] else []
  }

  /** Where in `s` the elements that satisfy `p` stand: all of them, once each, in order. */
  function Indices<T>(s: seq<T>, p: T -> bool): (r: seq<nat>)
    ensures forall k :: 0 <= k < |r| ==> r[k] < |s|
  {
    if s == [] then [] else Indices(s[..|s| - 1], p) + if p(s[|s| - 1]) then [|s| - 1] else []
  }

  lemma {:induction false} IndicesExact<T>(s: seq<T>, p: T -> bool)
    ensures forall i: nat :: i in Indices(s, p) <==> i < |s| && p(s[i])
    ensures forall j, k :: 0 <= j < k < |Indices(s, p)| ==> Indices(s, p)[j] < Indices(s, p)[k]
  {
    if s != [] {
      var front := s[..|s| - 1];
      IndicesExact(front, p);
      assert forall i: nat :: i < |front| ==> front[i] == s[i];
    }
  }

  lemma {:induction false} IndicesAppend<T>(s: seq<T>, x: T, p: T -> bool)
    ensures Indices(s + [x], p) == if p(x) then Indices(s, p) + [|s|] else Indices(s, p)
  {
    assert (s + [x])[..|s + [x]| - 1] == s;
  }

  /** The last `n` elements of `s`, or all of `s` when it is shorter. */
  function LastN<T>(s: seq<T>, n: nat): (r: seq<T>) {
    if |s| <= n then s else s[|s| - n..]
  }

  /** `a` can be obtained from `b` by deleting elements: an order-preserving embedding. */
  ghost predicate Subsequence<T>(a: seq<T>, b: seq<T>) {
    if a == [] then true
    else if b == [] then false
    else
      || (a[|a| - 1] == b[|b| - 1] && Subsequence(a[..|a| - 1], b[..|b| - 1]))
      || Subsequence(a, b[..|b| - 1])
  }

  lemma {:induction false} FilterConcat<T>(a: seq<T>, b: seq<T>, p: T -> bool)
    ensures Filter(a + b, p) == Filter(a, p) + Filter(b, p)
  {
    if b == [] {
      assert a + b == a;
    } else {
      assert (a + b)[..|a + b| - 1] == a + b[..|b| - 1];
      FilterConcat(a, b[..|b| - 1], p);
    }
  }

  /** Filtering by a stronger predicate makes an earlier, weaker filter redundant. */
  lemma {:induction false} FilterAbsorbs<T>(s: seq<T>, weak: T -> bool, strong: T -> bool)
    requires forall x :: x in s && strong(x) ==> weak(x)
    ensures Filter(Filter(s, weak), strong) == Filter(s, strong)
  {
    if s != [] {
      var front, last := s[..|s| - 1], s[|s| - 1];
      FilterAbsorbs(front, weak, strong);
      FilterConcat(Filter(front, weak), if weak(last) then [last] else [], strong);
    }
  }

  lemma {:induction false} FilterKeepsAll<T>(s: seq<T>, p: T -> bool)
    requires forall x :: x in s ==> p(x)
    ensures Filter(s, p) == s
  {
    if s != [] {
      FilterKeepsAll(s[..|s| - 1], p);
    }
  }

  lemma {:induction false} FilterMember<T>(s: seq<T>, p: T -> bool, x: T)
    ensures x in Filter(s, p) <==> x in s && p(x)
  {
    if s != [] {
      FilterMember(s[..|s| - 1], p, x);
      assert s == s[..|s| - 1] + [s[|s| - 1]];
    }
  }

  lemma {:induction false} FilterIsSubsequence<T>(s: seq<T>, p: T -> bool)
    ensures Subsequence(Filter(s, p), s)
  {
    if s != [] {
      var front, last := s[..|s| - 1], s[|s| - 1];
      FilterIsSubsequence(front, p);
      if p(last) {
        assert Filter(s, p)[..|Filter(s, p)| - 1] == Filter(front, p);
      } else {
        assert Filter(s, p) == Filter(front, p);
      }
    }
  }

  lemma {:induction false} SubsequenceReflexive<T>(s: seq<T>)
    ensures Subsequence(s, s)
  {
    if s != [] {
      SubsequenceReflexive(s[..|s| - 1]);
    }
  }

  lemma {:induction false} SubsequenceTransitive<T>(a: seq<T>, b: seq<T>, c: seq<T>)
    requires Subsequence(a, b) && Subsequence(b, c)
    ensures Subsequence(a, c)
    decreases |c|
  {
    if a != [] && b != [] && c != [] {
      var front := c[..|c| - 1];
      if Subsequence(b, front) {
        SubsequenceTransitive(a, b, front);
      } else if Subsequence(a, b[..|b| - 1]) {
        SubsequenceTransitive(a, b[..|b| - 1], front);
      } else {
        SubsequenceTransitive(a[..|a| - 1], b[..|b| - 1], front);
      }
    }
  }

  /** Appending the same element to both sides keeps an embedding. */
  lemma SubsequenceAppend<T>(a: seq<T>, b: seq<T>, x: T)
    requires Subsequence(a, b)
    ensures Subsequence(a + [x], b + [x])
  {
    assert (a + [x])[..|a|] == a && (b + [x])[..|b|] == b;
  }

  lemma {:induction false} LastNIsSubsequence<T>(s: seq<T>, n: nat)
    ensures Subsequence(LastN(s, n), s)
  {
    if |s| <= n {
      SubsequenceReflexive(s);
    } else if n > 0 {
      LastNIsSubsequence(s[..|s| - 1], n - 1);
      assert LastN(s, n)[..n - 1] == LastN(s[..|s| - 1], n - 1);
    }
  }

  /** Deleting elements never adds occurrences. */
  lemma {:induction false} SubsequenceMultiset<T>(a: seq<T>, b: seq<T>)
    requires Subsequence(a, b)
    ensures multiset(a) <= multiset(b)
    decreases |b|
  {
    if a != [] && b != [] {
      assert b == b[..|b| - 1] + [b[|b| - 1]] && a == a[..|a| - 1] + [a[|a| - 1]];
      if Subsequence(a, b[..|b| - 1]) {
        SubsequenceMultiset(a, b[..|b| - 1]);
      } else {
        SubsequenceMultiset(a[..|a| - 1], b[..|b| - 1]);
      }
    }
  }

  /** `p` never turns false again later in the sequence. */
  ghost predicate Upward<T>(s: seq<T>, p: T -> bool) {
    forall i, j :: 0 <= i < j < |s| && p(s[i]) ==> p(s[j])
  }

  /** For an upward `p`, trimming to a window before filtering and trimming again afterwards is the
      same as filtering the final window: either the element the window would drop next fails `p`
      already, or it proves that everything after it passes. */
  lemma WindowStep<T>(h: seq<T>, f: T, n: nat, p: T -> bool)
    requires n > 0 && p(f) && Upward(h, p)
    ensures LastN(Filter(LastN(h, n) + [f], p), n) == Filter(LastN(h + [f], n), p)
  {
    if |h| < n {
      assert LastN(h + [f], n) == h + [f];
    } else {
      var window := LastN(h, n);
      var rest := window[1..];
      assert LastN(h + [f], n) == rest + [f];
      assert window + [f] == [window[0]] + (rest + [f]);
      WindowSlides(window[0], rest, f, n, p);
    }
  }

  lemma WindowSlides<T>(oldest: T, rest: seq<T>, f: T, n: nat, p: T -> bool)
    requires |rest| + 1 == n && p(f)
    requires p(oldest) ==> forall g :: g in rest ==> p(g)
    ensures LastN(Filter([oldest] + (rest + [f]), p), n) == Filter(rest + [f], p)
  {
    if p(oldest) {
      FilterKeepsAll([oldest] + (rest + [f]), p);
      FilterKeepsAll(rest + [f], p);
    } else {
      FilterDropsFirst([oldest] + (rest + [f]), p);
    }
  }

  lemma FilterDropsFirst<T>(s: seq<T>, p: T -> bool)
    requires s != [] && !p(s[0])
    ensures Filter(s, p) == Filter(s[1..], p)
  {
    assert s == [s[0]] + s[1..];
    FilterConcat([s[0]], s[1..], p);
    assert Filter([s[0]], p) == [];
  }
}
