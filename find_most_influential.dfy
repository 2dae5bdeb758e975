/*
 * The sequential lazy-greedy maximum-coverage seed search over RRR sets.
 *
 * The counters and the heap storage are arrays updated in loops, as in the
 * source. The RRR-set vector is an array that is partitioned in place, so
 * that the sets covered by the seeds chosen so far collect at its end.
 * The max-priority queue is represented by its contents, a sequence of
 * (vertex, key) entries; `top` may return any entry of maximal key, because
 * the order among equal keys is not fixed by the heap.
 */
module FindMostInfluential {
  import opened Counting
  import Partition

  /** A heap entry: a vertex with the coverage it had when it was pushed. */
  datatype Entry = Entry(vertex: nat, key: int)

  /**
   * Subtracts from vertexCoverage[v] the number of times v occurs in the
   * sets: the exact inverse of CountOccurrencies over the same sets.
   */
  method UpdateCounters(sets: seq<RRRSet>, vertexCoverage: array<int>)
    requires VerticesBelow(sets, vertexCoverage.Length)
    modifies vertexCoverage
    ensures forall v :: 0 <= v < vertexCoverage.Length ==>
      vertexCoverage[v] == old(vertexCoverage[v]) - Occurrences(sets, v)
  {
    var i := 0;
    while i < |sets|
      invariant 0 <= i <= |sets|
      invariant forall v :: 0 <= v < vertexCoverage.Length ==>
        vertexCoverage[v] == old(vertexCoverage[v]) - Occurrences(sets[..i], v)
    {
      var s := sets[i];
      var j := 0;
      while j < |s|
        invariant 0 <= j <= |s|
        invariant forall v :: 0 <= v < vertexCoverage.Length ==>
          vertexCoverage[v] == old(vertexCoverage[v]) - Occurrences(sets[..i], v) - multiset(s[..j])[v]
      {
        assert s[..j + 1] == s[..j] + [s[j]];
        vertexCoverage[s[j]] := vertexCoverage[s[j]] - 1;
        j := j + 1;
      }
      assert s[..j] == s;
      assert sets[..i + 1][..i] == sets[..i];
      i := i + 1;
    }
    assert sets[..i] == sets;
  }

  /** Stores the entry (v, counts[v]) at position v for every vertex v of the counter range. */
  method InitHeapStorage(counts: array<int>, out: array<Entry>)
    requires counts.Length <= out.Length
    modifies out
    ensures forall v :: 0 <= v < counts.Length ==> out[v] == Entry(v, counts[v])
    ensures forall v :: counts.Length <= v < out.Length ==> out[v] == old(out[v])
  {
    var v := 0;
    while v < counts.Length
      invariant 0 <= v <= counts.Length
      invariant forall w :: 0 <= w < v ==> out[w] == Entry(w, counts[w])
      invariant forall w :: counts.Length <= w < out.Length ==> out[w] == old(out[w])
    {
      out[v] := Entry(v, counts[v]);
      v := v + 1;
    }
  }

  /** Position `t` holds an entry of maximal key: what the queue's top may return. */
  predicate IsTop(queue: seq<Entry>, t: nat) {
    t < |queue| && forall x :: 0 <= x < |queue| ==> queue[x].key <= queue[t].key
  }

  /** A non-empty queue has a top. */
  lemma {:induction false} TopExists(queue: seq<Entry>)
    requires |queue| > 0
    ensures exists t :: IsTop(queue, t)
  {
    if |queue| == 1 {
      assert IsTop(queue, 0);
    } else {
      var rest := queue[..|queue| - 1];
      TopExists(rest);
      var t: nat :| IsTop(rest, t);
      if queue[t].key >= queue[|queue| - 1].key {
        assert IsTop(queue, t);
      } else {
        assert IsTop(queue, |queue| - 1);
      }
    }
  }

  function SumKeys(queue: seq<Entry>): int {
    if |queue| == 0 then 0 else SumKeys(queue[..|queue| - 1]) + queue[|queue| - 1].key
  }

  lemma {:induction false} SumKeysAppend(a: seq<Entry>, b: seq<Entry>)
    ensures SumKeys(a + b) == SumKeys(a) + SumKeys(b)
  {
    if |b| == 0 {
      assert a + b == a;
    } else {
      assert (a + b)[..|a + b| - 1] == a + b[..|b| - 1];
      SumKeysAppend(a, b[..|b| - 1]);
    }
  }

  lemma SumKeysRemove(queue: seq<Entry>, t: nat)
    requires t < |queue|
    ensures SumKeys(queue) == SumKeys(queue[..t] + queue[t + 1..]) + queue[t].key
  {
    var pre, one, post := queue[..t], [queue[t]], queue[t + 1..];
    assert queue == pre + (one + post);
    SumKeysAppend(pre, one + post);
    SumKeysAppend(one, post);
    SumKeysAppend(pre, post);
    assert SumKeys(one) == queue[t].key by {
      assert one[..0] == [];
    }
  }

  lemma {:induction false} SumKeysNonNegative(queue: seq<Entry>)
    requires forall x :: 0 <= x < |queue| ==> queue[x].key >= 0
    ensures SumKeys(queue) >= 0
  {
    if |queue| > 0 {
      SumKeysNonNegative(queue[..|queue| - 1]);
    }
  }

  /** Every set of `b` satisfies Q when every set of `a` does and b is a reordering of a. */
  lemma PermKeeps(a: seq<RRRSet>, b: seq<RRRSet>, Q: RRRSet -> bool)
    requires multiset(a) == multiset(b)
    requires forall i :: 0 <= i < |a| ==> Q(a[i])
    ensures forall i :: 0 <= i < |b| ==> Q(b[i])
  {
    forall i | 0 <= i < |b|
      ensures Q(b[i])
    {
      assert b[i] in multiset(b);
      var j :| 0 <= j < |a| && a[j] == b[i];
    }
  }

  /**
   * The sets part of the search state: `sets` is a reordering of the
   * original sets in which [0, end) holds the sets that no seed covers and
   * [end, |sets|) the sets some seed covers.
   */
  ghost predicate SetsState(orig: seq<RRRSet>, sets: seq<RRRSet>, end: nat, n: nat, result: seq<nat>) {
    |sets| == |orig| && end <= |sets| && multiset(sets) == multiset(orig) &&
    (forall i :: 0 <= i < |sets| ==> IsRRRSet(sets[i], n)) &&
    (forall i :: 0 <= i < end ==> !Hit(sets[i], result)) &&
    (forall i :: end <= i < |sets| ==> Hit(sets[i], result))
  }

  /** The counters hold each vertex's coverage of the uncovered sets [0, end). */
  ghost predicate CountersState(sets: seq<RRRSet>, end: nat, n: nat, cov: seq<int>)
    requires end <= |sets|
  {
    |cov| == n && forall v :: 0 <= v < n ==> cov[v] == Coverage(sets[..end], v)
  }

  /**
   * The queue holds one entry for each vertex not chosen yet, and no other;
   * an entry's key is never below the vertex's current counter.
   */
  ghost predicate QueueState(queue: seq<Entry>, n: nat, cov: seq<int>, result: seq<nat>)
    requires |cov| == n
  {
    (forall x :: 0 <= x < |queue| ==>
       queue[x].vertex < n && queue[x].vertex !in result && queue[x].key >= cov[queue[x].vertex]) &&
    (forall x, y :: 0 <= x < y < |queue| ==> queue[x].vertex != queue[y].vertex) &&
    (forall v :: 0 <= v < n && v !in result ==> InQueue(queue, v)) &&
    |queue| + |result| == n
  }

  /** Some entry of the queue holds vertex v. */
  ghost predicate InQueue(queue: seq<Entry>, v: nat) {
    exists x :: 0 <= x < |queue| && queue[x].vertex == v
  }

  /**
   * In a search state, the current counter of a vertex is what it would
   * newly cover if added to the seeds, counted over the original sets.
   */
  lemma CounterIsGain(orig: seq<RRRSet>, sets: seq<RRRSet>, end: nat, n: nat,
                      cov: seq<int>, result: seq<nat>, v: nat)
    requires SetsState(orig, sets, end, n, result) && CountersState(sets, end, n, cov) && v < n
    ensures Gain(orig, result, v) == cov[v]
  {
    assert sets == sets[..end] + sets[end..];
    CountWherePerm(sets, orig, ContainsAndLive(v, result));
    CountWhereSplit(sets[..end], sets[end..], ContainsAndLive(v, result));
    GainOfLive(sets[..end], result, v);
    GainOfCovered(sets[end..], result, v);
  }

  /** In a search state, `end` is the number of original sets that no seed covers. */
  lemma EndIsUncovered(orig: seq<RRRSet>, sets: seq<RRRSet>, end: nat, n: nat, result: seq<nat>)
    requires SetsState(orig, sets, end, n, result)
    ensures Uncovered(orig, result) == end
  {
    assert sets == sets[..end] + sets[end..];
    CountWherePerm(sets, orig, Live(result));
    CountWhereSplit(sets[..end], sets[end..], Live(result));
    CountWhereAll(sets[..end], Live(result));
    CountWhereNone(sets[end..], Live(result));
  }

  /** A queue entry of maximal key that is not stale holds a vertex of maximal gain. */
  lemma TopIsGreedy(orig: seq<RRRSet>, sets: seq<RRRSet>, end: nat, n: nat,
                    cov: seq<int>, queue: seq<Entry>, result: seq<nat>, t: nat)
    requires SetsState(orig, sets, end, n, result) && CountersState(sets, end, n, cov)
    requires QueueState(queue, n, cov, result)
    requires IsTop(queue, t) && queue[t].key <= cov[queue[t].vertex]
    ensures GreedyChoice(orig, result, queue[t].vertex, n)
  {
    var u := queue[t].vertex;
    CounterIsGain(orig, sets, end, n, cov, result, u);
    forall w | 0 <= w < n
      ensures Gain(orig, result, w) <= Gain(orig, result, u)
    {
      if w in result {
        GainOfSeed(orig, result, w);
      } else {
        CounterIsGain(orig, sets, end, n, cov, result, w);
        assert InQueue(queue, w);
        var x :| 0 <= x < |queue| && queue[x].vertex == w;
      }
    }
  }

  /**
   * Selects up to k seeds from the vertices [0, n) greedily: each seed covers
   * the most sets not covered by the seeds before it. Stale heap entries
   * are refreshed with the current coverage and pushed back instead of
   * being chosen. Returns the number of sets covered and the seeds.
   * The sets are reordered in place: the covered ones end up at the end.
   */
  method FindMostInfluentialSet(n: nat, k: nat, R: array<RRRSet>) returns (covered: nat, result: seq<nat>)
    requires forall i :: 0 <= i < R.Length ==> IsRRRSet(R[i], n)
    requires k <= n || forall i :: 0 <= i < R.Length ==> |R[i]| > 0
    modifies R
    ensures multiset(R[..]) == multiset(old(R[..]))
    ensures |result| <= k && SeedsState(result, n)
    ensures covered == R.Length - Uncovered(old(R[..]), result)
    ensures forall i :: 0 <= i < R.Length ==> (Hit(R[i], result) <==> R.Length - covered <= i)
    ensures |result| < k ==> covered == R.Length
    ensures forall j :: 0 <= j < |result| ==> GreedyChoice(old(R[..]), result[..j], result[j], n)
  {
    ghost var orig := R[..];
    var vertexCoverage, queue := InitSearch(R, n);
    result := [];
    var uncovered := R.Length;
    var end: nat := R.Length;
    while |result| < k && uncovered != 0
      invariant SetsState(orig, R[..], end, n, result)
      invariant CountersState(R[..], end, n, vertexCoverage[..])
      invariant QueueState(queue, n, vertexCoverage[..], result)
      invariant SeedsState(result, n)
      invariant uncovered == end && |result| <= k
      invariant forall j :: 0 <= j < |result| ==> GreedyChoice(orig, result[..j], result[j], n)
      decreases k - |result|, SumKeys(queue)
    {
      QueueNotEmpty(orig, R[..], end, n, vertexCoverage[..], queue, result, k);
      TopExists(queue);
      var t: nat :| IsTop(queue, t);
      var element := queue[t];
      var rest := queue[..t] + queue[t + 1..];
      ghost var cov0 := vertexCoverage[..];
      if element.key > vertexCoverage[element.vertex] {
        // stale: the vertex lost coverage since it was pushed
        StaleRefreshed(R[..], end, n, cov0, queue, result, t);
        queue := rest + [Entry(element.vertex, vertexCoverage[element.vertex])];
        continue;
      }
      var u := element.vertex;
      assert GreedyChoice(orig, result, u, n) by {
        TopIsGreedy(orig, R[..], end, n, cov0, queue, result, t);
      }
      uncovered := uncovered - element.key;
      var itr := CoverSeed(orig, R, vertexCoverage, end, n, result, u);
      ChoiceKeepsQueue(queue, t, n, cov0, vertexCoverage[..], result);
      GreedyExtends(orig, result, u, n);
      end := itr;
      result := result + [u];
      queue := rest;
    }
    covered := R.Length - uncovered;
    FinalState(orig, R[..], end, n, result, k);
  }

  /** What the search state says once the loop stops. */
  lemma FinalState(orig: seq<RRRSet>, sets: seq<RRRSet>, end: nat, n: nat, result: seq<nat>, k: nat)
    requires SetsState(orig, sets, end, n, result) && (|result| < k ==> end == 0)
    ensures multiset(sets) == multiset(orig)
    ensures end == Uncovered(orig, result)
    ensures forall i :: 0 <= i < |sets| ==> (Hit(sets[i], result) <==> end <= i)
  {
    EndIsUncovered(orig, sets, end, n, result);
  }

  /**
   * One choice step: moves the sets that contain the new seed u to the
   * back of the uncovered range [0, end) and brings the counters up to date
   * for the remaining range [0, itr), either by subtracting the moved sets
   * or by recounting the remaining ones, whichever range is shorter.
   */
  method CoverSeed(ghost orig: seq<RRRSet>, R: array<RRRSet>, vertexCoverage: array<int>,
                   end: nat, n: nat, ghost result: seq<nat>, u: nat) returns (itr: nat)
    requires SetsState(orig, R[..], end, n, result) && CountersState(R[..], end, n, vertexCoverage[..])
    requires u < n
    modifies R, vertexCoverage
    ensures itr <= end && itr == end - old(vertexCoverage[u])
    ensures SetsState(orig, R[..], itr, n, result + [u])
    ensures CountersState(R[..], itr, n, vertexCoverage[..])
    ensures forall v :: 0 <= v < n ==> vertexCoverage[v] <= old(vertexCoverage[v])
  {
    ghost var before := R[..];
    ghost var cov0 := vertexCoverage[..];
    itr := Partition.Partition(R, 0, end, (s: RRRSet) => u !in s);
    PartitionedBySeed(before, R[..], end, itr, u);
    ChoiceKeepsSets(orig, before, R[..], end, itr, n, result, u);
    ghost var after := R[..];
    if end - itr < itr {
      SubtractMoved(before, R, vertexCoverage, end, itr, n);
    } else {
      Recount(R, vertexCoverage, itr, n);
    }
    CountersShrink(before, after, end, itr, n, cov0, vertexCoverage[..], u);
  }

  /** Brings the counters of [0, end) down to [0, itr) by subtracting the moved sets [itr, end). */
  method SubtractMoved(ghost before: seq<RRRSet>, R: array<RRRSet>, vertexCoverage: array<int>,
                       end: nat, itr: nat, n: nat)
    requires itr <= end <= |before| == R.Length && vertexCoverage.Length == n
    requires multiset(R[0..end]) == multiset(before[0..end])
    requires forall i :: 0 <= i < R.Length ==> IsRRRSet(R[i], n)
    requires CountersState(before, end, n, vertexCoverage[..])
    modifies vertexCoverage
    ensures CountersState(R[..], itr, n, vertexCoverage[..])
  {
    ghost var cov0 := vertexCoverage[..];
    AllBelow(R[itr..end], n);
    UpdateCounters(R[itr..end], vertexCoverage);
    CountersByUpdate(before, R[..], end, itr, n, cov0, vertexCoverage[..]);
  }

  /** Recounts the counters from scratch over the remaining sets [0, itr). */
  method Recount(R: array<RRRSet>, vertexCoverage: array<int>, itr: nat, n: nat)
    requires itr <= R.Length && vertexCoverage.Length == n
    requires forall i :: 0 <= i < R.Length ==> IsRRRSet(R[i], n)
    modifies vertexCoverage
    ensures CountersState(R[..], itr, n, vertexCoverage[..])
  {
    forall v | 0 <= v < vertexCoverage.Length {
      vertexCoverage[v] := 0;
    }
    AllBelow(R[..itr], n);
    assert forall v :: 0 <= v < n ==> vertexCoverage[v] == 0;
    CountOccurrencies(R[..itr], vertexCoverage);
    CountersByRecount(R[..], itr, n, vertexCoverage[..]);
  }

  /**
   * Counts every vertex's occurrences over all the sets into a fresh counter
   * array and fills the heap storage with one (vertex, count) entry per vertex.
   */
  method InitSearch(R: array<RRRSet>, n: nat) returns (vertexCoverage: array<int>, queue: seq<Entry>)
    requires forall i :: 0 <= i < R.Length ==> IsRRRSet(R[i], n)
    ensures fresh(vertexCoverage)
    ensures SetsState(R[..], R[..], R.Length, n, [])
    ensures CountersState(R[..], R.Length, n, vertexCoverage[..])
    ensures QueueState(queue, n, vertexCoverage[..], [])
  {
    vertexCoverage := new int[n](_ => 0);
    AllBelow(R[..], n);
    CountOccurrencies(R[..], vertexCoverage);
    var storage := new Entry[n](_ => Entry(0, 0));
    InitHeapStorage(vertexCoverage, storage);
    queue := storage[..];
    InitialState(R[..], R[..], n, vertexCoverage[..], queue);
  }

  lemma InitialState(orig: seq<RRRSet>, sets: seq<RRRSet>, n: nat, cov: seq<int>, queue: seq<Entry>)
    requires sets == orig && forall i :: 0 <= i < |sets| ==> IsRRRSet(sets[i], n)
    requires |cov| == n && forall v :: 0 <= v < n ==> cov[v] == 0 + Occurrences(sets, v)
    requires |queue| == n && forall v :: 0 <= v < n ==> queue[v] == Entry(v, cov[v])
    ensures SetsState(orig, sets, |sets|, n, [])
    ensures CountersState(sets, |sets|, n, cov)
    ensures QueueState(queue, n, cov, [])
  {
    assert sets[..|sets|] == sets;
    forall v | 0 <= v < n
      ensures cov[v] == Coverage(sets[..|sets|], v)
    {
      OccurrencesOfSorted(sets, v);
    }
    forall v | 0 <= v < n
      ensures InQueue(queue, v)
    {
      assert queue[v].vertex == v;
    }
  }

  /** While sets stay uncovered and fewer than k seeds are chosen, the queue has an entry to pop. */
  lemma QueueNotEmpty(orig: seq<RRRSet>, sets: seq<RRRSet>, end: nat, n: nat,
                      cov: seq<int>, queue: seq<Entry>, result: seq<nat>, k: nat)
    requires SetsState(orig, sets, end, n, result) && |cov| == n && QueueState(queue, n, cov, result)
    requires |result| < k && end != 0
    requires k <= n || forall i :: 0 <= i < |orig| ==> |orig[i]| > 0
    ensures |queue| > 0
  {
    if k > n {
      PermKeeps(orig, sets, s => |s| > 0);
      var v := sets[0][0];
      assert v in sets[0] && !Hit(sets[0], result);
      assert InQueue(queue, v);
      var x :| 0 <= x < |queue| && queue[x].vertex == v;
    }
  }

  /** Pushing back a stale entry with its current coverage keeps the queue state and lowers the key sum. */
  lemma StaleRefreshed(sets: seq<RRRSet>, end: nat, n: nat, cov: seq<int>, queue: seq<Entry>,
                       result: seq<nat>, t: nat)
    requires end <= |sets| && CountersState(sets, end, n, cov) && QueueState(queue, n, cov, result)
    requires t < |queue| && queue[t].key > cov[queue[t].vertex]
    ensures var q' := queue[..t] + queue[t + 1..] + [Entry(queue[t].vertex, cov[queue[t].vertex])];
      QueueState(q', n, cov, result) && 0 <= SumKeys(q') < SumKeys(queue)
  {
    var v := queue[t].vertex;
    var q' := queue[..t] + queue[t + 1..] + [Entry(v, cov[v])];
    RefreshedKeys(queue, t, cov[v]);
    RefreshedState(queue, t, n, cov, result);
    forall x | 0 <= x < |q'|
      ensures q'[x].key >= 0
    {
      assert cov[q'[x].vertex] == Coverage(sets[..end], q'[x].vertex);
    }
    SumKeysNonNegative(q');
  }

  lemma RefreshedState(queue: seq<Entry>, t: nat, n: nat, cov: seq<int>, result: seq<nat>)
    requires |cov| == n && QueueState(queue, n, cov, result)
    requires t < |queue| && queue[t].vertex < n
    ensures QueueState(queue[..t] + queue[t + 1..] + [Entry(queue[t].vertex, cov[queue[t].vertex])],
                       n, cov, result)
  {
    var v := queue[t].vertex;
    var q' := queue[..t] + queue[t + 1..] + [Entry(v, cov[v])];
    RefreshedEntries(queue, t, cov[v]);
    RefreshedBounds(queue, q', t, n, cov, result);
    RefreshedDistinct(queue, q', t, cov[v]);
    RefreshedComplete(queue, q', t, n, result, cov[v]);
  }

  lemma RefreshedBounds(queue: seq<Entry>, q': seq<Entry>, t: nat, n: nat, cov: seq<int>, result: seq<nat>)
    requires |cov| == n && t < |queue| == |q'| && queue[t].vertex < n
    requires forall x :: 0 <= x < |queue| ==>
       queue[x].vertex < n && queue[x].vertex !in result && queue[x].key >= cov[queue[x].vertex]
    requires forall x :: 0 <= x < |q'| ==> q'[x].vertex == queue[MovedFrom(queue, t, x)].vertex
    requires forall x :: 0 <= x < |q'| - 1 ==> q'[x] == queue[MovedFrom(queue, t, x)]
    requires q'[|q'| - 1] == Entry(queue[t].vertex, cov[queue[t].vertex])
    ensures forall x :: 0 <= x < |q'| ==>
       q'[x].vertex < n && q'[x].vertex !in result && q'[x].key >= cov[q'[x].vertex]
  {
  }

  lemma RefreshedDistinct(queue: seq<Entry>, q': seq<Entry>, t: nat, key: int)
    requires t < |queue| == |q'|
    requires forall x, y :: 0 <= x < y < |queue| ==> queue[x].vertex != queue[y].vertex
    requires forall x :: 0 <= x < |q'| ==> q'[x].vertex == queue[MovedFrom(queue, t, x)].vertex
    ensures forall x, y :: 0 <= x < y < |q'| ==> q'[x].vertex != q'[y].vertex
  {
    forall x, y | 0 <= x < y < |q'|
      ensures q'[x].vertex != q'[y].vertex
    {
      var x' := MovedFrom(queue, t, x);
      var y' := MovedFrom(queue, t, y);
      if x' > y' {
        assert queue[y'].vertex != queue[x'].vertex;
      }
    }
  }

  lemma RefreshedComplete(queue: seq<Entry>, q': seq<Entry>, t: nat, n: nat, result: seq<nat>, key: int)
    requires t < |queue| == |q'|
    requires forall v :: 0 <= v < n && v !in result ==> InQueue(queue, v)
    requires forall x :: 0 <= x < |q'| ==> q'[x].vertex == queue[MovedFrom(queue, t, x)].vertex
    ensures forall v :: 0 <= v < n && v !in result ==> InQueue(q', v)
  {
    forall w | 0 <= w < n && w !in result
      ensures InQueue(q', w)
    {
      assert InQueue(queue, w);
      var x :| 0 <= x < |queue| && queue[x].vertex == w;
      assert q'[MovedTo(queue, t, x)].vertex == w;
    }
  }

  /** The new position in the refreshed queue of the entry at position x of the old one. */
  function MovedTo(queue: seq<Entry>, t: nat, x: nat): (y: nat)
    requires t < |queue| && x < |queue|
    ensures y < |queue| && MovedFrom(queue, t, y) == x
  {
    if x < t then x else if x == t then |queue| - 1 else x - 1
  }

  /** The key sum drops by the difference between the stale key and the refreshed one. */
  lemma RefreshedKeys(queue: seq<Entry>, t: nat, key: int)
    requires t < |queue|
    ensures SumKeys(queue[..t] + queue[t + 1..] + [Entry(queue[t].vertex, key)]) ==
      SumKeys(queue) - queue[t].key + key
  {
    var rest := queue[..t] + queue[t + 1..];
    SumKeysRemove(queue, t);
    SumKeysAppend(rest, [Entry(queue[t].vertex, key)]);
    assert SumKeys([Entry(queue[t].vertex, key)]) == key;
  }

  /** Where each entry of the refreshed queue comes from in the old queue. */
  lemma RefreshedEntries(queue: seq<Entry>, t: nat, key: int)
    requires t < |queue|
    ensures var q' := queue[..t] + queue[t + 1..] + [Entry(queue[t].vertex, key)];
      |q'| == |queue| &&
      (forall x :: 0 <= x < |q'| ==> q'[x].vertex == queue[MovedFrom(queue, t, x)].vertex) &&
      (forall x :: 0 <= x < |q'| - 1 ==> q'[x] == queue[MovedFrom(queue, t, x)]) &&
      q'[|q'| - 1] == Entry(queue[t].vertex, key)
  {
  }

  /** The old position of the entry at position x of the refreshed queue. */
  function MovedFrom(queue: seq<Entry>, t: nat, x: nat): (y: nat)
    requires t < |queue| && x < |queue|
    ensures y < |queue|
    ensures x < t ==> y == x
    ensures t <= x < |queue| - 1 ==> y == x + 1
    ensures x == |queue| - 1 ==> y == t
  {
    if x < t then x else if x < |queue| - 1 then x + 1 else t
  }

  /** After partitioning [0, end) by "does not contain u", u is in exactly the sets [itr, end). */
  lemma PartitionedBySeed(before: seq<RRRSet>, after: seq<RRRSet>, end: nat, itr: nat, u: nat)
    requires itr <= end <= |after|
    requires Partition.SplitAt(after, 0, itr, end, (s: RRRSet) => u !in s)
    ensures forall i :: 0 <= i < itr ==> u !in after[i]
    ensures forall i :: itr <= i < end ==> u in after[i]
  {
  }

  lemma CountersByUpdate(before: seq<RRRSet>, after: seq<RRRSet>, end: nat, itr: nat, n: nat,
                         cov0: seq<int>, cov1: seq<int>)
    requires itr <= end <= |before| == |after| && |cov0| == |cov1| == n
    requires multiset(after[0..end]) == multiset(before[0..end])
    requires forall i :: 0 <= i < |after| ==> IsRRRSet(after[i], n)
    requires forall v :: 0 <= v < n ==> cov0[v] == Coverage(before[..end], v)
    requires forall v :: 0 <= v < n ==> cov1[v] == cov0[v] - Occurrences(after[itr..end], v)
    ensures forall v :: 0 <= v < n ==> cov1[v] == Coverage(after[..itr], v)
  {
    forall v | 0 <= v < n
      ensures cov1[v] == Coverage(after[..itr], v)
    {
      assert before[0..end] == before[..end] && after[0..end] == after[..end];
      CountWherePerm(before[..end], after[..end], Contains(v));
      assert after[..end] == after[..itr] + after[itr..end];
      CountWhereSplit(after[..itr], after[itr..end], Contains(v));
      OccurrencesOfSorted(after[itr..end], v);
    }
  }

  lemma CountersByRecount(after: seq<RRRSet>, itr: nat, n: nat, cov1: seq<int>)
    requires itr <= |after| && |cov1| == n
    requires forall i :: 0 <= i < |after| ==> IsRRRSet(after[i], n)
    requires forall v :: 0 <= v < n ==> cov1[v] == 0 + Occurrences(after[..itr], v)
    ensures forall v :: 0 <= v < n ==> cov1[v] == Coverage(after[..itr], v)
  {
    forall v | 0 <= v < n
      ensures cov1[v] == Coverage(after[..itr], v)
    {
      OccurrencesOfSorted(after[..itr], v);
    }
  }

  /** Moving the sets that contain the new seed u to [itr, end) keeps the sets part of the state. */
  lemma ChoiceKeepsSets(orig: seq<RRRSet>, before: seq<RRRSet>, after: seq<RRRSet>, end: nat, itr: nat, n: nat,
                        result: seq<nat>, u: nat)
    requires SetsState(orig, before, end, n, result)
    requires itr <= end && |after| == |before|
    requires multiset(after[0..end]) == multiset(before[0..end])
    requires forall i :: 0 <= i < |after| && !(0 <= i < end) ==> after[i] == before[i]
    requires forall i :: 0 <= i < itr ==> u !in after[i]
    requires forall i :: itr <= i < end ==> u in after[i]
    ensures SetsState(orig, after, itr, n, result + [u])
  {
    var r' := result + [u];
    assert before[0..end] == before[..end] && after[0..end] == after[..end];
    assert after == after[..end] + after[end..] && before == before[..end] + before[end..];
    assert after[end..] == before[end..];
    assert multiset(after) == multiset(orig);
    PermKeeps(before, after, s => IsRRRSet(s, n));
    PermKeeps(before[..end], after[..end], Live(result));
    forall i | 0 <= i < |after|
      ensures i < itr ==> !Hit(after[i], r')
      ensures itr <= i ==> Hit(after[i], r')
    {
      if i < itr {
        assert !Hit(after[..end][i], result);
      } else if i < end {
        assert u in r';
      } else {
        assert Hit(before[i], result);
        var x :| x in result && x in before[i];
        assert x in r';
      }
    }
  }

  /**
   * The counters only go down when sets move past the cursor, and the new
   * seed's counter before the move is exactly the number of sets moved.
   */
  lemma CountersShrink(before: seq<RRRSet>, after: seq<RRRSet>, end: nat, itr: nat, n: nat,
                       cov0: seq<int>, cov1: seq<int>, u: nat)
    requires itr <= end <= |before| == |after| && u < n
    requires multiset(after[0..end]) == multiset(before[0..end])
    requires CountersState(before, end, n, cov0) && CountersState(after, itr, n, cov1)
    requires forall i :: 0 <= i < itr ==> u !in after[i]
    requires forall i :: itr <= i < end ==> u in after[i]
    ensures forall v :: 0 <= v < n ==> cov1[v] <= cov0[v]
    ensures itr == end - cov0[u]
  {
    assert before[0..end] == before[..end] && after[0..end] == after[..end];
    assert after[..end] == after[..itr] + after[itr..end];
    forall v | 0 <= v < n
      ensures cov1[v] <= cov0[v]
    {
      CountWherePerm(before[..end], after[..end], Contains(v));
      CountWhereSplit(after[..itr], after[itr..end], Contains(v));
    }
    CountWherePerm(before[..end], after[..end], Contains(u));
    CountWhereSplit(after[..itr], after[itr..end], Contains(u));
    CountWhereNone(after[..itr], Contains(u));
    CountWhereAll(after[itr..end], Contains(u));
  }

  /** Popping the chosen entry keeps the queue state for the extended seeds and the lowered counters. */
  lemma ChoiceKeepsQueue(queue: seq<Entry>, t: nat, n: nat, cov0: seq<int>, cov1: seq<int>, result: seq<nat>)
    requires |cov0| == |cov1| == n && QueueState(queue, n, cov0, result) && SeedsState(result, n)
    requires t < |queue| && forall v :: 0 <= v < n ==> cov1[v] <= cov0[v]
    ensures QueueState(queue[..t] + queue[t + 1..], n, cov1, result + [queue[t].vertex])
    ensures SeedsState(result + [queue[t].vertex], n)
  {
    RestEntries(queue, t, n, cov0, cov1, result);
    RestDistinct(queue, t);
    RestHoldsOthers(queue, t, n, result);
  }

  /** Every entry left after popping entry t is an unchosen vertex whose key bounds its lowered counter. */
  lemma RestEntries(queue: seq<Entry>, t: nat, n: nat, cov0: seq<int>, cov1: seq<int>, result: seq<nat>)
    requires |cov0| == |cov1| == n && QueueState(queue, n, cov0, result)
    requires t < |queue| && forall v :: 0 <= v < n ==> cov1[v] <= cov0[v]
    ensures var rest := queue[..t] + queue[t + 1..];
      forall x :: 0 <= x < |rest| ==>
        rest[x].vertex < n && rest[x].vertex !in result + [queue[t].vertex] && rest[x].key >= cov1[rest[x].vertex]
  {
    var rest := queue[..t] + queue[t + 1..];
    var r' := result + [queue[t].vertex];
    forall x | 0 <= x < |rest|
      ensures rest[x].vertex < n && rest[x].vertex !in r' && rest[x].key >= cov1[rest[x].vertex]
    {
      if x < t {
        assert rest[x] == queue[x];
      } else {
        assert rest[x] == queue[x + 1];
      }
    }
  }

  /** Popping an entry keeps the entries' vertices pairwise distinct. */
  lemma RestDistinct(queue: seq<Entry>, t: nat)
    requires t < |queue| && forall x, y :: 0 <= x < y < |queue| ==> queue[x].vertex != queue[y].vertex
    ensures var rest := queue[..t] + queue[t + 1..];
      forall x, y :: 0 <= x < y < |rest| ==> rest[x].vertex != rest[y].vertex
  {
    var rest := queue[..t] + queue[t + 1..];
    forall x, y | 0 <= x < y < |rest|
      ensures rest[x].vertex != rest[y].vertex
    {
      var x' := if x < t then x else x + 1;
      var y' := if y < t then y else y + 1;
      assert rest[x] == queue[x'] && rest[y] == queue[y'] && x' < y';
    }
  }

  /** Every vertex other than the popped one and the earlier seeds still has an entry. */
  lemma RestHoldsOthers(queue: seq<Entry>, t: nat, n: nat, result: seq<nat>)
    requires t < |queue| && forall v :: 0 <= v < n && v !in result ==> InQueue(queue, v)
    ensures forall w :: 0 <= w < n && w !in result + [queue[t].vertex] ==> InQueue(queue[..t] + queue[t + 1..], w)
  {
    var rest := queue[..t] + queue[t + 1..];
    forall w | 0 <= w < n && w !in result + [queue[t].vertex]
      ensures InQueue(rest, w)
    {
      assert InQueue(queue, w);
      var x :| 0 <= x < |queue| && queue[x].vertex == w;
      if x < t {
        assert rest[x].vertex == w;
      } else {
        assert rest[x - 1].vertex == w;
      }
    }
  }

  /** The greedy property of the seeds so far extends to one more seed of maximal gain. */
  lemma GreedyExtends(orig: seq<RRRSet>, result: seq<nat>, u: nat, n: nat)
    requires forall j :: 0 <= j < |result| ==> GreedyChoice(orig, result[..j], result[j], n)
    requires GreedyChoice(orig, result, u, n)
    ensures forall j :: 0 <= j < |result + [u]| ==>
      GreedyChoice(orig, (result + [u])[..j], (result + [u])[j], n)
  {
    forall j | 0 <= j < |result + [u]|
      ensures GreedyChoice(orig, (result + [u])[..j], (result + [u])[j], n)
    {
      if j < |result| {
        assert (result + [u])[..j] == result[..j];
      } else {
        assert (result + [u])[..j] == result;
      }
    }
  }

  lemma AllBelow(sets: seq<RRRSet>, n: nat)
    requires forall i :: 0 <= i < |sets| ==> IsRRRSet(sets[i], n)
    ensures VerticesBelow(sets, n)
  {
  }
}
