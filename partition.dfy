/*
 * In-place reordering of a range of the RRR-set vector: exchanging two
 * ranges, partitioning a range by a predicate, and merging two adjacent
 * partitioned blocks into one (the `+` of the partition-index triple).
 * Positions are indices into one array.
 */
module Partition {

  /** Every element of [lo, m) satisfies P and none of [m, hi) does. */
  ghost predicate SplitAt<T>(s: seq<T>, lo: nat, m: nat, hi: nat, P: T -> bool)
    requires lo <= m <= hi <= |s|
  {
    (forall i :: lo <= i < m ==> P(s[i])) && (forall i :: m <= i < hi ==> !P(s[i]))
  }

  /**
   * Exchanges [b, e) with [o, o + (e - b)) and returns o + (e - b), the end of
   * the second range. The two ranges must not overlap.
   */
  method SwapRanges<T>(a: array<T>, b: nat, e: nat, o: nat) returns (r: nat)
    requires b <= e <= a.Length && o + (e - b) <= a.Length
    requires e <= o || o + (e - b) <= b
    modifies a
    ensures r == o + (e - b)
    ensures Exchanged(old(a[..]), a[..], b, o, e - b)
  {
    var n := e - b;
    var k := 0;
    while k < n
      invariant 0 <= k <= n
      invariant forall i :: b <= i < b + k ==> a[i] == old(a[i - b + o])
      invariant forall i :: o <= i < o + k ==> a[i] == old(a[i - o + b])
      invariant forall i :: 0 <= i < a.Length && !(b <= i < b + k) && !(o <= i < o + k) ==> a[i] == old(a[i])
    {
      a[b + k], a[o + k] := a[o + k], a[b + k];
      k := k + 1;
    }
    r := o + n;
    assert Exchanged(old(a[..]), a[..], b, o, n);
  }

  /**
   * Reorders [lo, hi) so that the elements satisfying P come first, and
   * returns the first position whose element does not satisfy P. The
   * result is a permutation of the range; nothing outside it moves.
   */
  method Partition<T>(a: array<T>, lo: nat, hi: nat, P: T -> bool) returns (m: nat)
    requires lo <= hi <= a.Length
    modifies a
    ensures lo <= m <= hi
    ensures SplitAt(a[..], lo, m, hi, P)
    ensures multiset(a[lo..hi]) == multiset(old(a[lo..hi]))
    ensures forall i :: 0 <= i < a.Length && !(lo <= i < hi) ==> a[i] == old(a[i])
  {
    m := lo;
    var j := hi;
    while m < j
      invariant lo <= m <= j <= hi
      invariant forall i :: lo <= i < m ==> P(a[i])
      invariant forall i :: j <= i < hi ==> !P(a[i])
      invariant multiset(a[lo..hi]) == multiset(old(a[lo..hi]))
      invariant forall i :: 0 <= i < a.Length && !(lo <= i < hi) ==> a[i] == old(a[i])
    {
      if P(a[m]) {
        m := m + 1;
      } else {
        j := j - 1;
        Swap(a, lo, hi, m, j);
      }
    }
  }

  /** Exchanges a[x] and a[y], two positions of [lo, hi); the range keeps its multiset. */
  method Swap<T>(a: array<T>, lo: nat, hi: nat, x: nat, y: nat)
    requires lo <= x < hi <= a.Length && lo <= y < hi
    modifies a
    ensures a[x] == old(a[y]) && a[y] == old(a[x])
    ensures forall i :: 0 <= i < a.Length && i != x && i != y ==> a[i] == old(a[i])
    ensures multiset(a[lo..hi]) == multiset(old(a[lo..hi]))
  {
    ghost var before := a[..];
    a[x], a[y] := a[y], a[x];
    SwapKeepsMultiset(before, a[..], lo, hi, x, y);
  }

  /** Exchanging two positions inside [lo, hi) keeps the range's multiset. */
  lemma SwapKeepsMultiset<T>(s: seq<T>, t: seq<T>, lo: nat, hi: nat, x: nat, y: nat)
    requires lo <= x < hi <= |s| && lo <= y < hi && |t| == |s|
    requires t[x] == s[y] && t[y] == s[x]
    requires forall i :: 0 <= i < |s| && i != x && i != y ==> t[i] == s[i]
    ensures multiset(t[lo..hi]) == multiset(s[lo..hi])
  {
    if x != y {
      var u := s[lo..hi][x - lo := s[y]][y - lo := s[x]];
      assert t[lo..hi] == u;
      assert multiset(u) == multiset(s[lo..hi]);
    } else {
      assert t[lo..hi] == s[lo..hi];
    }
  }

  /**
   * Three positions into the array: the block [begin, end) is partitioned
   * around pivot, the first position whose element fails the predicate.
   */
  datatype PartitionIndices = PartitionIndices(begin: nat, end: nat, pivot: nat)
  {
    ghost predicate Valid(len: nat) {
      begin <= pivot <= end <= len
    }

    ghost predicate PartitionedIn<T>(s: seq<T>, P: T -> bool)
      requires Valid(|s|)
    {
      SplitAt(s, begin, pivot, end, P)
    }

    /**
     * Merges this block with the adjacent block `o` that follows it. If
     * this block holds failing elements and `o` holds passing ones, the
     * shorter of the two runs is swapped across. The result covers
     * [begin, o.end) and is partitioned around its pivot.
     */
    method Add<T>(a: array<T>, o: PartitionIndices, P: T -> bool) returns (r: PartitionIndices)
      requires Valid(a.Length) && o.Valid(a.Length) && end == o.begin
      requires PartitionedIn(a[..], P) && o.PartitionedIn(a[..], P)
      modifies a
      ensures r.begin == begin && r.end == o.end && r.Valid(a.Length)
      ensures r.PartitionedIn(a[..], P)
      ensures multiset(a[begin..o.end]) == multiset(old(a[begin..o.end]))
      ensures forall i :: 0 <= i < a.Length && !(begin <= i < o.end) ==> a[i] == old(a[i])
    {
      if pivot == begin && o.pivot == o.begin {
        r := PartitionIndices(begin, o.end, pivot);
        return;
      } else if pivot == end {
        r := PartitionIndices(begin, o.end, o.pivot);
        return;
      }
      var pv := ExchangeRuns(a, begin, pivot, end, o.pivot, o.end, P);
      r := PartitionIndices(begin, o.end, pv);
    }
  }

  /**
   * The general case of the merge: the first block [lo, hi) around m1 still
   * holds failing elements and the second [mid, hi) around m2 passing ones.
   * The shorter of the failing run [m1, mid) and the passing run [mid, m2) is
   * swapped across, and the new pivot is returned.
   */
  method ExchangeRuns<T>(a: array<T>, lo: nat, m1: nat, mid: nat, m2: nat, hi: nat, P: T -> bool)
    returns (pv: nat)
    requires lo <= m1 <= mid <= m2 <= hi <= a.Length
    requires SplitAt(a[..], lo, m1, mid, P) && SplitAt(a[..], mid, m2, hi, P)
    modifies a
    ensures lo <= pv <= hi && SplitAt(a[..], lo, pv, hi, P)
    ensures multiset(a[lo..hi]) == multiset(old(a[lo..hi]))
    ensures forall i :: 0 <= i < a.Length && !(lo <= i < hi) ==> a[i] == old(a[i])
  {
    ghost var s := a[..];
    if mid - m1 < m2 - mid {
      var toBeMoved := mid - m1;
      var _ := SwapRanges(a, m1, mid, m2 - toBeMoved);
      pv := m2 - toBeMoved;
      RunsExchangedMultiset(s, a[..], lo, hi, m1, pv, toBeMoved);
      ExchangedSplit(s, a[..], lo, m1, mid, m2, hi, m1, pv, toBeMoved, pv, P);
    } else {
      pv := SwapRanges(a, mid, m2, m1);
      RunsExchangedMultiset(s, a[..], lo, hi, mid, m1, m2 - mid);
      ExchangedSplit(s, a[..], lo, m1, mid, m2, hi, mid, m1, m2 - mid, pv, P);
    }
  }

  /**
   * Two adjacent partitioned blocks [lo, m1) [m1, mid) and [mid, m2) [m2, hi)
   * become one partitioned block [lo, pv) [pv, hi) once a failing run of the
   * first block and an equally long passing run of the second are exchanged
   * so that [lo, pv) holds only passing elements.
   */
  lemma ExchangedSplit<T>(s: seq<T>, t: seq<T>, lo: nat, m1: nat, mid: nat, m2: nat, hi: nat,
                          b: nat, o: nat, n: nat, pv: nat, P: T -> bool)
    requires lo <= m1 <= mid <= m2 <= hi <= |s| == |t|
    requires SplitAt(s, lo, m1, mid, P) && SplitAt(s, mid, m2, hi, P)
    requires Exchanged(s, t, b, o, n) && lo <= b && b + n <= hi && lo <= o && o + n <= hi && hi <= |s|
    requires (b == m1 && o == m2 - n && n == mid - m1 && pv == o) ||
             (b == mid && o == m1 && n == m2 - mid && pv == m1 + n && m1 + n <= mid)
    ensures lo <= pv <= hi && SplitAt(t, lo, pv, hi, P)
  {
  }

  /**
   * t is s with the runs [b, b + n) and [o, o + n) exchanged position by
   * position; the runs do not overlap and nothing else differs.
   */
  ghost predicate Exchanged<T>(s: seq<T>, t: seq<T>, b: nat, o: nat, n: nat) {
    |s| == |t| && b + n <= |s| && o + n <= |s| && (b + n <= o || o + n <= b) &&
    (forall i :: b <= i < b + n ==> t[i] == s[i - b + o]) &&
    (forall i :: o <= i < o + n ==> t[i] == s[i - o + b]) &&
    (forall i :: 0 <= i < |s| && !(b <= i < b + n) && !(o <= i < o + n) ==> t[i] == s[i])
  }

  lemma {:induction false} RunsExchangedMultiset<T>(s: seq<T>, t: seq<T>, lo: nat, hi: nat, b: nat, o: nat, n: nat)
    requires Exchanged(s, t, b, o, n) && lo <= b && b + n <= hi && lo <= o && o + n <= hi && hi <= |s|
    ensures multiset(t[lo..hi]) == multiset(s[lo..hi])
    ensures forall i :: 0 <= i < |s| && !(lo <= i < hi) ==> t[i] == s[i]
    decreases n
  {
    if n > 0 {
      // undo the last exchanged pair and recurse on the shorter runs
      var k := n - 1;
      var m := t[b + k := s[b + k]][o + k := s[o + k]];
      assert Exchanged(s, m, b, o, k);
      RunsExchangedMultiset(s, m, lo, hi, b, o, k);
      SwapKeepsMultiset(m, t, lo, hi, b + k, o + k);
    } else {
      assert t[lo..hi] == s[lo..hi];
    }
  }
}
