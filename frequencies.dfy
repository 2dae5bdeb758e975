/*
 * The vertex frequencies the Huffman tree is built from: freq[v] is the
 * number of occurrences of v across all RRR sets. The tree gets one leaf
 * per vertex with a nonzero count (Present), its root weighs the total
 * count (Total), and the vertex reported as most frequent is the largest
 * index among those with the maximal count (IsMaxVertex).
 */
module Frequencies {
  import opened Counting

  /** Every count is a count: none is negative. */
  predicate Counts(f: seq<int>) {
    forall v :: 0 <= v < |f| ==> f[v] >= 0
  }

  /** The vertices below i with a nonzero count, each exactly once. */
  function Present(f: seq<int>, i: nat): (m: multiset<nat>)
    requires i <= |f|
  {
    if i == 0 then multiset{}
    else Present(f, i - 1) + (if f[i - 1] != 0 then multiset{i - 1} else multiset{})
  }

  /** Present holds vertex v once when v is below i with a nonzero count, and not at all otherwise. */
  lemma {:induction false} PresentCount(f: seq<int>, i: nat, v: nat)
    requires i <= |f|
    ensures Present(f, i)[v] == if v < i && f[v] != 0 then 1 else 0
  {
    if i > 0 {
      PresentCount(f, i - 1, v);
    }
  }

  /** At most one vertex per count seen. */
  lemma PresentSize(f: seq<int>, i: nat)
    requires i <= |f|
    ensures |Present(f, i)| <= i
  {
  }

  /** The counts below i, added up. */
  function Total(f: seq<int>, i: nat): int
    requires i <= |f|
  {
    if i == 0 then 0 else Total(f, i - 1) + f[i - 1]
  }

  /** With no negative count, the total is positive exactly when some count is nonzero. */
  lemma {:induction false} TotalPositive(f: seq<int>, i: nat)
    requires i <= |f| && Counts(f)
    ensures Total(f, i) >= 0
    ensures Total(f, i) > 0 <==> exists v :: 0 <= v < i && f[v] != 0
  {
    if i > 0 {
      TotalPositive(f, i - 1);
      if Total(f, i) > 0 && f[i - 1] == 0 {
        var v :| 0 <= v < i - 1 && f[v] != 0;
      }
    }
  }

  /**
   * r is the vertex the frequency scan reports: when every count is
   * zero, the start value m0; otherwise a vertex with the maximal count,
   * the last one in index order when several share it.
   */
  predicate IsMaxVertex(f: seq<int>, m0: nat, r: nat) {
    if forall v :: 0 <= v < |f| ==> f[v] == 0 then r == m0
    else
      r < |f| && f[r] > 0 &&
      (forall v :: 0 <= v < |f| ==> f[v] <= f[r]) &&
      (forall v :: r < v < |f| ==> f[v] < f[r])
  }

  /** The reported vertex is determined by the counts and the start value. */
  lemma MaxVertexUnique(f: seq<int>, m0: nat, r1: nat, r2: nat)
    requires IsMaxVertex(f, m0, r1) && IsMaxVertex(f, m0, r2)
    ensures r1 == r2
  {
    if !forall v :: 0 <= v < |f| ==> f[v] == 0 {
      assert f[r1] <= f[r2] && f[r2] <= f[r1];
    }
  }

  /** The scan after the first i counts: r is its report so far and mf the count r carries (0 before any nonzero count). */
  predicate Scanned(f: seq<int>, i: nat, m0: nat, r: nat, mf: int)
    requires i <= |f|
  {
    IsMaxVertex(f[..i], m0, r) && mf == (if forall v :: 0 <= v < i ==> f[v] == 0 then 0 else f[r])
  }

  lemma ScanStart(f: seq<int>, m0: nat)
    ensures Scanned(f, 0, m0, m0, 0)
  {
    assert f[..0] == [];
  }

  /** One step of the scan: a nonzero count at least the maximum so far takes over the report. */
  lemma ScanStep(f: seq<int>, i: nat, m0: nat, r: nat, mf: int)
    requires Counts(f) && i < |f| && Scanned(f, i, m0, r, mf)
    ensures f[i] != 0 && f[i] >= mf ==> Scanned(f, i + 1, m0, i, f[i])
    ensures !(f[i] != 0 && f[i] >= mf) ==> Scanned(f, i + 1, m0, r, mf)
  {
    var g, g' := f[..i], f[..i + 1];
    assert forall v :: 0 <= v < i ==> g'[v] == g[v] == f[v];
    assert g'[i] == f[i];
    if forall v :: 0 <= v < i ==> f[v] == 0 {
      assert mf == 0 && r == m0;
      if f[i] == 0 {
        assert forall v :: 0 <= v < i + 1 ==> g'[v] == 0;
      }
    } else {
      var w :| 0 <= w < i && f[w] != 0;
      assert g'[w] != 0;
      assert r < i && mf == f[r] > 0;
    }
  }

  /** A finished scan reports IsMaxVertex of all the counts. */
  lemma ScanDone(f: seq<int>, m0: nat, r: nat, mf: int)
    requires Scanned(f, |f|, m0, r, mf)
    ensures IsMaxVertex(f, m0, r)
  {
    assert f[..|f|] == f;
  }

  /** The occurrence counts of the vertices below n. */
  function CountsOf(sets: seq<RRRSet>, n: nat): (f: seq<int>)
    ensures |f| == n && Counts(f)
    ensures forall v :: 0 <= v < n ==> f[v] == Occurrences(sets, v)
  {
    seq(n, (v: int) requires 0 <= v < n => Occurrences(sets, v))
  }

  /** A vertex no set names has no occurrences. */
  lemma {:induction false} OccurrencesBeyond(sets: seq<RRRSet>, n: nat, v: nat)
    requires VerticesBelow(sets, n) && v >= n
    ensures Occurrences(sets, v) == 0
  {
    if |sets| > 0 {
      var front := sets[..|sets| - 1];
      assert VerticesBelow(front, n) by {
        forall i, j | 0 <= i < |front| && 0 <= j < |front[i]|
          ensures front[i][j] < n
        {
          assert front[i] == sets[i];
        }
      }
      OccurrencesBeyond(front, n, v);
      var s := sets[|sets| - 1];
      assert v !in s by {
        forall j | 0 <= j < |s| ensures s[j] != v {
          assert s[j] < n;
        }
      }
    }
  }

  /** A vertex some set names occurs. */
  lemma {:induction false} OccurrencesOfMember(sets: seq<RRRSet>, k: nat, j: nat)
    requires k < |sets| && j < |sets[k]|
    ensures Occurrences(sets, sets[k][j]) > 0
  {
    var v := sets[k][j];
    var front := sets[..|sets| - 1];
    if k == |sets| - 1 {
      assert v in multiset(sets[k]);
    } else {
      assert front[k] == sets[k];
      OccurrencesOfMember(front, k, j);
    }
  }

  /** The number of vertex entries across the sets, repeats included: total_rrr_size. */
  function EntryCount(sets: seq<RRRSet>): nat {
    if |sets| == 0 then 0 else EntryCount(sets[..|sets| - 1]) + |sets[|sets| - 1]|
  }

  /** Totals add up pointwise. */
  lemma {:induction false} TotalAdd(f: seq<int>, g: seq<int>, h: seq<int>, i: nat)
    requires i <= |f| && i <= |g| && i <= |h|
    requires forall v :: 0 <= v < i ==> h[v] == f[v] + g[v]
    ensures Total(h, i) == Total(f, i) + Total(g, i)
  {
    if i > 0 {
      TotalAdd(f, g, h, i - 1);
    }
  }

  /** The count of one vertex x: its total over the vertices below i is 1 when x is one of them. */
  lemma {:induction false} TotalOne(x: nat, m: nat, i: nat)
    requires i <= m
    ensures Total(seq(m, (v: int) => if v == x then 1 else 0), i) == if x < i then 1 else 0
  {
    if i > 0 {
      TotalOne(x, m, i - 1);
    }
  }

  /** The occurrence counts of the vertices below m within the one set s. */
  function Tally(s: RRRSet, m: nat): (f: seq<int>)
    ensures |f| == m && forall v :: 0 <= v < m ==> f[v] == multiset(s)[v]
  {
    seq(m, (v: int) requires 0 <= v < m => multiset(s)[v as nat])
  }

  /** The counts of one set total its length when all its vertices are below m. */
  lemma {:induction false} TotalOfSet(s: RRRSet, m: nat)
    requires forall j :: 0 <= j < |s| ==> s[j] < m
    ensures Total(Tally(s, m), m) == |s|
  {
    var h := Tally(s, m);
    if |s| == 0 {
      assert Total(h, m) == 0 by {
        TotalAdd(h, h, h, m);
      }
    } else {
      var x, s' := s[|s| - 1], s[..|s| - 1];
      assert s == s' + [x];
      var f := Tally(s', m);
      var g := seq(m, (v: int) => if v == x then 1 else 0);
      TotalOfSet(s', m);
      TotalOne(x, m, m);
      TotalAdd(f, g, h, m);
    }
  }

  /** The vertex counts over the vertices below m total the number of entries: the root's weight is total_rrr_size. */
  lemma {:induction false} TotalIsEntries(sets: seq<RRRSet>, m: nat)
    requires VerticesBelow(sets, m)
    ensures Total(CountsOf(sets, m), m) == EntryCount(sets)
  {
    if |sets| > 0 {
      var front, s := sets[..|sets| - 1], sets[|sets| - 1];
      assert VerticesBelow(front, m) by {
        forall i, j | 0 <= i < |front| && 0 <= j < |front[i]| ensures front[i][j] < m {
          assert front[i] == sets[i];
        }
      }
      TotalIsEntries(front, m);
      TotalOfSet(s, m);
      TotalAdd(CountsOf(front, m), Tally(s, m), CountsOf(sets, m), m);
    } else {
      var f := CountsOf(sets, m);
      TotalAdd(f, f, f, m);
    }
  }
}
