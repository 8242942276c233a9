/**
 * The standard-library randomness the cohort code uses, as nondeterministic
 * choice: `list(s)` on a set (some order), `random.sample(s, k)` (some k
 * distinct members) and `random.shuffle(xs)` (some permutation). Every
 * outcome the library could produce is allowed, so whatever is proved about
 * a caller holds for every seed.
 */
module Sampling {

  predicate Distinct<T(==)>(r: seq<T>) {
    forall i, j | 0 <= i < j < |r| :: r[i] != r[j]
  }

  function Elems<T>(r: seq<T>): set<T> {
    set x | x in r
  }

  /** A list without repeats has as many members as its set. */
  lemma {:induction false} DistinctCard<T>(r: seq<T>)
    requires Distinct(r)
    ensures |Elems(r)| == |r|
  {
    if |r| > 0 {
      var last := r[|r| - 1];
      var init := r[..|r| - 1];
      DistinctCard(init);
      assert Elems(r) == Elems(init) + {last};
      assert last !in Elems(init);
    }
  }

  /** In a list without repeats every value occurs at most once. */
  lemma {:induction false} DistinctMultiplicity<T>(r: seq<T>, x: T)
    requires Distinct(r)
    ensures multiset(r)[x] <= 1
  {
    if |r| > 0 {
      var init := r[..|r| - 1];
      assert r == init + [r[|r| - 1]];
      DistinctMultiplicity(init, x);
      assert r[|r| - 1] !in init;
    }
  }

  /** A value at two positions occurs at least twice. */
  lemma RepeatMultiplicity<T>(r: seq<T>, i: nat, j: nat)
    requires i < j < |r| && r[i] == r[j]
    ensures multiset(r)[r[i]] >= 2
  {
    assert r == r[..i] + [r[i]] + r[i + 1..j] + [r[j]] + r[j + 1..];
  }

  /** A permutation of a list without repeats has no repeats and the same members. */
  lemma PermutationKeepsDistinct<T>(xs: seq<T>, r: seq<T>)
    requires multiset(r) == multiset(xs) && Distinct(xs)
    ensures Distinct(r) && Elems(r) == Elems(xs)
  {
    forall i, j | 0 <= i < j < |r| ensures r[i] != r[j] {
      if r[i] == r[j] {
        RepeatMultiplicity(r, i, j);
        DistinctMultiplicity(xs, r[i]);
      }
    }
    assert forall x :: x in r <==> x in multiset(r);
    assert forall x :: x in xs <==> x in multiset(xs);
  }

  /** Two lists without repeats and without a common member concatenate to a list without repeats. */
  lemma DistinctConcat<T>(a: seq<T>, b: seq<T>)
    requires Distinct(a) && Distinct(b) && Elems(a) !! Elems(b)
    ensures Distinct(a + b)
  {
    var c := a + b;
    forall i, j | 0 <= i < j < |c| ensures c[i] != c[j] {
      if i < |a| <= j {
        assert c[i] in Elems(a) && c[j] == b[j - |a|] && c[j] in Elems(b);
      }
    }
  }

  /** A subset is no larger than its superset. */
  lemma SubsetCard<T>(a: set<T>, b: set<T>)
    requires a <= b
    ensures |a| <= |b|
  {
    assert b == a + (b - a);
  }

  /** `list(s)`: every member of the set exactly once, in some order. */
  method SetToSeq<T(==)>(s: set<T>) returns (r: seq<T>)
    ensures Elems(r) == s && Distinct(r) && |r| == |s|
  {
    var rest := s;
    r := [];
    while rest != {}
      invariant rest <= s && Elems(r) == s - rest && Distinct(r)
      invariant |r| + |rest| == |s|
      decreases |rest|
    {
      var x :| x in rest;
      assert Elems(r + [x]) == Elems(r) + {x};
      r := r + [x];
      rest := rest - {x};
    }
  }

  /** `random.sample(s, k)`: k distinct members of `s`, in some order. */
  method SampleList<T(==)>(s: set<T>, k: nat) returns (r: seq<T>)
    requires k <= |s|
    ensures |r| == k && Distinct(r) && Elems(r) <= s
  {
    var rest := s;
    r := [];
    while |r| < k
      invariant rest <= s && Elems(r) == s - rest && Distinct(r)
      invariant |r| + |rest| == |s| && |r| <= k
      decreases k - |r|
    {
      var x :| x in rest;
      assert Elems(r + [x]) == Elems(r) + {x};
      r := r + [x];
      rest := rest - {x};
    }
  }

  /** `set(random.sample(s, k))`: a k-element subset of `s`. */
  method SampleSet<T(==)>(s: set<T>, k: nat) returns (r: set<T>)
    requires k <= |s|
    ensures r <= s && |r| == k
  {
    var picked := SampleList(s, k);
    DistinctCard(picked);
    r := Elems(picked);
  }

  /** `random.shuffle(xs)`: some permutation of `xs`. */
  method Shuffle<T>(xs: seq<T>) returns (r: seq<T>)
    ensures multiset(r) == multiset(xs)
  {
    var rest := xs;
    r := [];
    while |rest| > 0
      invariant multiset(r) + multiset(rest) == multiset(xs)
      decreases |rest|
    {
      var i :| 0 <= i < |rest|;
      assert rest == rest[..i] + [rest[i]] + rest[i + 1..];
      r := r + [rest[i]];
      rest := rest[..i] + rest[i + 1..];
    }
  }
}
