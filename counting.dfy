/*
 * Counting over collections of RRR sets (Random Reverse Reachability sets).
 * An RRR set is a list of vertex ids; the seed search sorts each one
 * strictly ascending, so a set never names a vertex twice.
 *
 * The counts over sets are "how many sets satisfy a predicate". That is
 * defined once, as CountWhere, and proved additive over concatenation and
 * invariant under reordering. The rest of the model reads coverage, gain
 * and the number of uncovered sets through those two lemmas. The counts
 * over vertices are Occurrences, which CountOccurrencies adds into an
 * array of counters.
 */
module Counting {

  type RRRSet = seq<nat>

  /** Strictly ascending, which is how the seed search keeps its sets. */
  predicate StrictlySorted(s: RRRSet) {
    forall i, j :: 0 <= i < j < |s| ==> s[i] < s[j]
  }

  /** Every vertex named by any set is below `n`. */
  predicate VerticesBelow(sets: seq<RRRSet>, n: nat) {
    forall i, j :: 0 <= i < |sets| && 0 <= j < |sets[i]| ==> sets[i][j] < n
  }

  /** Number of sets of `sets` on which `P` holds. */
  function CountWhere(sets: seq<RRRSet>, P: RRRSet -> bool): (r: nat)
    ensures r <= |sets|
  {
    if |sets| == 0 then 0
    else CountWhere(sets[..|sets| - 1], P) + (if P(sets[|sets| - 1]) then 1 else 0)
  }

  /** Some seed of `seeds` lies in `s`: the set is covered by the seeds. */
  predicate Hit(s: RRRSet, seeds: seq<nat>) {
    exists x :: x in seeds && x in s
  }

  function Contains(v: nat): RRRSet -> bool {
    s => v in s
  }

  function ContainsAndLive(v: nat, seeds: seq<nat>): RRRSet -> bool {
    s => v in s && !Hit(s, seeds)
  }

  function Live(seeds: seq<nat>): RRRSet -> bool {
    s => !Hit(s, seeds)
  }

  /** Number of sets that contain `v`. */
  function Coverage(sets: seq<RRRSet>, v: nat): nat {
    CountWhere(sets, Contains(v))
  }

  /** Number of sets that contain `v` and no vertex of `seeds`: what adding `v` to `seeds` would newly cover. */
  function Gain(sets: seq<RRRSet>, seeds: seq<nat>, v: nat): nat {
    CountWhere(sets, ContainsAndLive(v, seeds))
  }

  /** Number of sets that contain no vertex of `seeds`. */
  function Uncovered(sets: seq<RRRSet>, seeds: seq<nat>): nat {
    CountWhere(sets, Live(seeds))
  }

  /** A well-formed RRR set over the vertices [0, n). */
  predicate IsRRRSet(s: RRRSet, n: nat) {
    StrictlySorted(s) && forall j :: 0 <= j < |s| ==> s[j] < n
  }

  /** The seeds are distinct vertices of [0, n). */
  predicate SeedsState(result: seq<nat>, n: nat) {
    (forall j :: 0 <= j < |result| ==> result[j] < n) &&
    (forall i, j :: 0 <= i < j < |result| ==> result[i] != result[j])
  }

  /** No vertex of [0, n) would newly cover more sets than `chosen`, given the seeds `prior`. */
  predicate GreedyChoice(sets: seq<RRRSet>, prior: seq<nat>, chosen: nat, n: nat) {
    forall w :: 0 <= w < n ==> Gain(sets, prior, w) <= Gain(sets, prior, chosen)
  }

  /** Total number of occurrences of `v`, counting repeats inside a set. */
  function Occurrences(sets: seq<RRRSet>, v: nat): nat {
    if |sets| == 0 then 0
    else Occurrences(sets[..|sets| - 1], v) + multiset(sets[|sets| - 1])[v]
  }

  lemma {:induction false} CountWhereSplit(a: seq<RRRSet>, b: seq<RRRSet>, P: RRRSet -> bool)
    ensures CountWhere(a + b, P) == CountWhere(a, P) + CountWhere(b, P)
  {
    if |b| == 0 {
      assert a + b == a;
    } else {
      var b' := b[..|b| - 1];
      assert (a + b)[..|a + b| - 1] == a + b';
      assert (a + b)[|a + b| - 1] == b[|b| - 1];
      CountWhereSplit(a, b', P);
    }
  }

  /** Taking the set at index `i` out of the collection. */
  lemma CountWhereRemove(b: seq<RRRSet>, i: nat, P: RRRSet -> bool)
    requires i < |b|
    ensures CountWhere(b, P) == CountWhere(b[..i] + b[i + 1..], P) + (if P(b[i]) then 1 else 0)
  {
    assert b == b[..i] + ([b[i]] + b[i + 1..]);
    CountWhereSplit(b[..i], [b[i]] + b[i + 1..], P);
    CountWhereSplit([b[i]], b[i + 1..], P);
    CountWhereSplit(b[..i], b[i + 1..], P);
    assert CountWhere([b[i]], P) == (if P(b[i]) then 1 else 0) by {
      var one: seq<RRRSet> := [b[i]];
      assert one[..0] == [];
    }
  }

  lemma MultisetRemove<T>(b: seq<T>, i: nat)
    requires i < |b|
    ensures multiset(b[..i] + b[i + 1..]) == multiset(b) - multiset{b[i]}
  {
    assert b == b[..i] + [b[i]] + b[i + 1..];
  }

  /** Reordering the sets changes no count. */
  lemma {:induction false} CountWherePerm(a: seq<RRRSet>, b: seq<RRRSet>, P: RRRSet -> bool)
    requires multiset(a) == multiset(b)
    ensures CountWhere(a, P) == CountWhere(b, P)
  {
    if |a| == 0 {
      assert |b| == |multiset(b)| == 0;
    } else {
      var x := a[|a| - 1];
      var a' := a[..|a| - 1];
      assert a == a' + [x];
      assert multiset(a') == multiset(a) - multiset{x};
      assert x in multiset(b);
      var i :| 0 <= i < |b| && b[i] == x;
      MultisetRemove(b, i);
      CountWherePerm(a', b[..i] + b[i + 1..], P);
      CountWhereRemove(b, i, P);
    }
  }

  /** Two predicates that agree on every set of `a` count the same. */
  lemma {:induction false} CountWhereAgree(a: seq<RRRSet>, P: RRRSet -> bool, Q: RRRSet -> bool)
    requires forall i :: 0 <= i < |a| ==> P(a[i]) == Q(a[i])
    ensures CountWhere(a, P) == CountWhere(a, Q)
  {
    if |a| > 0 {
      CountWhereAgree(a[..|a| - 1], P, Q);
    }
  }

  /** A predicate implied by another counts at least as many sets. */
  lemma {:induction false} CountWhereMono(a: seq<RRRSet>, P: RRRSet -> bool, Q: RRRSet -> bool)
    requires forall i :: 0 <= i < |a| ==> P(a[i]) ==> Q(a[i])
    ensures CountWhere(a, P) <= CountWhere(a, Q)
  {
    if |a| > 0 {
      CountWhereMono(a[..|a| - 1], P, Q);
    }
  }

  lemma {:induction false} CountWhereNone(a: seq<RRRSet>, P: RRRSet -> bool)
    requires forall i :: 0 <= i < |a| ==> !P(a[i])
    ensures CountWhere(a, P) == 0
  {
    if |a| > 0 {
      CountWhereNone(a[..|a| - 1], P);
    }
  }

  lemma {:induction false} CountWhereAll(a: seq<RRRSet>, P: RRRSet -> bool)
    requires forall i :: 0 <= i < |a| ==> P(a[i])
    ensures CountWhere(a, P) == |a|
  {
    if |a| > 0 {
      CountWhereAll(a[..|a| - 1], P);
    }
  }

  /** On sets no seed has covered yet, the gain of a vertex is its plain coverage. */
  lemma GainOfLive(a: seq<RRRSet>, seeds: seq<nat>, v: nat)
    requires forall i :: 0 <= i < |a| ==> !Hit(a[i], seeds)
    ensures Gain(a, seeds, v) == Coverage(a, v)
  {
    CountWhereAgree(a, ContainsAndLive(v, seeds), Contains(v));
  }

  /** Sets that the seeds already cover contribute no gain. */
  lemma GainOfCovered(a: seq<RRRSet>, seeds: seq<nat>, v: nat)
    requires forall i :: 0 <= i < |a| ==> Hit(a[i], seeds)
    ensures Gain(a, seeds, v) == 0
  {
    CountWhereNone(a, ContainsAndLive(v, seeds));
  }

  /** A vertex that is already a seed gains nothing. */
  lemma GainOfSeed(a: seq<RRRSet>, seeds: seq<nat>, v: nat)
    requires v in seeds
    ensures Gain(a, seeds, v) == 0
  {
    forall i | 0 <= i < |a|
      ensures !ContainsAndLive(v, seeds)(a[i])
    {
      if v in a[i] {
        assert Hit(a[i], seeds);
      }
    }
    CountWhereNone(a, ContainsAndLive(v, seeds));
  }

  /** A set without repeats holds `v` once if at all. */
  lemma {:induction false} SortedOnce(s: RRRSet, v: nat)
    requires StrictlySorted(s)
    ensures multiset(s)[v] == if v in s then 1 else 0
  {
    if |s| > 0 {
      var s' := s[..|s| - 1];
      assert s == s' + [s[|s| - 1]];
      assert StrictlySorted(s');
      SortedOnce(s', v);
      if v == s[|s| - 1] {
        assert v !in s' by {
          forall j | 0 <= j < |s'| ensures s'[j] != v {
            assert s[j] < s[|s| - 1];
          }
        }
      }
    }
  }

  /** Occurrences and coverage agree on sets without repeats. */
  lemma {:induction false} OccurrencesOfSorted(sets: seq<RRRSet>, v: nat)
    requires forall i :: 0 <= i < |sets| ==> StrictlySorted(sets[i])
    ensures Occurrences(sets, v) == Coverage(sets, v)
  {
    if |sets| > 0 {
      OccurrencesOfSorted(sets[..|sets| - 1], v);
      SortedOnce(sets[|sets| - 1], v);
    }
  }

  lemma {:induction false} OccurrencesSplit(a: seq<RRRSet>, b: seq<RRRSet>, v: nat)
    ensures Occurrences(a + b, v) == Occurrences(a, v) + Occurrences(b, v)
  {
    if |b| == 0 {
      assert a + b == a;
    } else {
      var b' := b[..|b| - 1];
      assert (a + b)[..|a + b| - 1] == a + b';
      OccurrencesSplit(a, b', v);
    }
  }

  /**
   * Adds to out[v], for every vertex v, the number of times v occurs in the
   * sets; counters of vertices that occur nowhere keep their value. This is
   * the counting loop of the seed search and of initByRRRSets alike.
   */
  method CountOccurrencies(sets: seq<RRRSet>, out: array<int>)
    requires VerticesBelow(sets, out.Length)
    modifies out
    ensures forall v :: 0 <= v < out.Length ==> out[v] == old(out[v]) + Occurrences(sets, v)
  {
    var i := 0;
    while i < |sets|
      invariant 0 <= i <= |sets|
      invariant forall v :: 0 <= v < out.Length ==> out[v] == old(out[v]) + Occurrences(sets[..i], v)
    {
      var s := sets[i];
      var j := 0;
      while j < |s|
        invariant 0 <= j <= |s|
        invariant forall v :: 0 <= v < out.Length ==>
          out[v] == old(out[v]) + Occurrences(sets[..i], v) + multiset(s[..j])[v]
      {
        assert s[..j + 1] == s[..j] + [s[j]];
        out[s[j]] := out[s[j]] + 1;
        j := j + 1;
      }
      assert s[..j] == s;
      assert sets[..i + 1][..i] == sets[..i];
      i := i + 1;
    }
    assert sets[..i] == sets;
  }
}
