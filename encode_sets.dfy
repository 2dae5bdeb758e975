/*
 * The per-set encoders encodeRR, encodeRR2, encodeRR22 and encodeRR3, and
 * the drivers encodeRRRSets and encodeRRRSets2 that compress a whole
 * collection of RRR sets with them. All of them run the packing loop
 * Encoder.PackSet; they differ in the code-length limit, in whether copies
 * are kept, in the counters they start from, in moving the current
 * most-frequent vertex to the front of the set first, and in updating the
 * global occurrence counts.
 */
module EncodeSets {
  import opened BigEndian
  import opened CodeTree
  import opened BitBuffer
  import opened Counting
  import opened Huffman
  import opened Encoder

  /**
   * std::find followed by std::iter_swap with the first element: the first
   * occurrence of x, if any, trades places with the first element.
   */
  function Front(s: seq<nat>, x: nat): (r: seq<nat>)
    ensures |r| == |s| && multiset(r) == multiset(s)
    ensures x in s ==> r[0] == x
    ensures x !in s ==> r == s
  {
    if x in s then
      var k := IndexOf(s, x);
      assert s == s[..k] + [x] + s[k + 1..];
      Swapped(s, k);
      s[0 := x][k := s[0]]
    else s
  }

  /** Trading s[0] and s[k] keeps the multiset. */
  lemma Swapped(s: seq<nat>, k: nat)
    requires k < |s|
    ensures multiset(s[0 := s[k]][k := s[0]]) == multiset(s)
  {
    if k != 0 {
      var t := s[0 := s[k]];
      assert multiset(t) == multiset(s) - multiset{s[0]} + multiset{s[k]};
      assert t[k] == s[k];
    }
  }

  /**
   * The find-and-swap at the start of encodeRR22 and encodeRR3 on the
   * first n elements of a: the first occurrence of x among them moves to
   * the front; the rest of the array is untouched.
   */
  method MoveToFront(a: array<nat>, n: nat, x: nat)
    requires n <= a.Length
    modifies a
    ensures a[..n] == Front(old(a[..n]), x) && a[n..] == old(a[n..])
  {
    ghost var s := a[..n];
    var i := 0;
    while i < n && a[i] != x
      invariant i <= n && a[..n] == s
      invariant x !in s[..i]
    {
      assert s[..i + 1] == s[..i] + [s[i]];
      i := i + 1;
    }
    if i < n {
      FirstIndex(s, x, i);
      var first := a[0];
      a[0] := a[i];
      a[i] := first;
      assert a[..n] == s[0 := x][i := s[0]];
    } else {
      assert s[..i] == s;
    }
  }

  /** Every element of r is in range when every element of s is and they hold the same vertices. */
  lemma RangeKept(s: seq<nat>, r: seq<nat>, n: nat)
    requires InRange(s, n) && multiset(r) == multiset(s)
    ensures InRange(r, n)
  {
    forall k | 0 <= k < |r| ensures r[k] < n {
      assert r[k] in multiset(r);
      var j :| 0 <= j < |s| && s[j] == r[k];
    }
  }

  /** m's count is at least that of every vertex of xs. */
  ghost predicate Leads(g: seq<int>, xs: seq<nat>, m: nat) {
    m < |g| && forall k :: 0 <= k < |xs| ==> xs[k] < |g| && g[xs[k]] <= g[m]
  }

  /** m's count is the highest of all. */
  ghost predicate Top(g: seq<int>, m: nat) {
    m < |g| && forall v :: 0 <= v < |g| ==> g[v] <= g[m]
  }

  /** Counting one more v and letting v take over on a tie keeps the leader ahead. */
  lemma LeadsStep(g: seq<int>, xs: seq<nat>, m: nat, v: nat)
    requires Leads(g, xs, m) && v < |g|
    ensures var g' := g[v := g[v] + 1];
      Leads(g', xs + [v], if g'[v] >= g'[m] then v else m) &&
      (Top(g, m) ==> Top(g', if g'[v] >= g'[m] then v else m))
  {
    var g' := g[v := g[v] + 1];
    var m' := if g'[v] >= g'[m] then v else m;
    forall k | 0 <= k < |xs| + 1 ensures (xs + [v])[k] < |g'| && g'[(xs + [v])[k]] <= g'[m'] {
      if k < |xs| {
        assert (xs + [v])[k] == xs[k];
      }
    }
  }

  /**
   * The running maximum of the tracking pass, replayed: from m0 over the
   * counts g0, each vertex of xs, once counted, becomes the maximum when
   * its count reaches (>=) that of the current maximum.
   */
  function Replay(g0: seq<int>, xs: seq<nat>, m0: nat): (m: nat)
    requires m0 < |g0| && InRange(xs, |g0|)
    ensures m < |g0|
  {
    if |xs| == 0 then m0
    else
      var m := Replay(g0, xs[..|xs| - 1], m0);
      var v := xs[|xs| - 1];
      if g0[v] + multiset(xs)[v] >= g0[m] + multiset(xs)[m] then v else m
  }

  /**
   * The global counting in encodeRR2: every vertex of rr adds one to its
   * counter, and after each increment the vertex becomes the current
   * maximum when its count reaches (>=) the current maximum's (Replay).
   * The result is the start vertex or a vertex of rr, at least as frequent
   * as every vertex of rr and as the start vertex was; when the start
   * vertex had the highest count, the result has the highest count
   * afterwards.
   */
  method Track(rr: seq<nat>, globalcnt: array<int>, m0: nat) returns (m: nat)
    requires InRange(rr, globalcnt.Length) && m0 < globalcnt.Length
    modifies globalcnt
    ensures forall v :: 0 <= v < globalcnt.Length ==> globalcnt[v] == old(globalcnt[v]) + multiset(rr)[v]
    ensures m == Replay(old(globalcnt[..]), rr, m0)
    ensures m < globalcnt.Length && (m == m0 || m in rr)
    ensures globalcnt[m] >= old(globalcnt[m0])
    ensures forall k :: 0 <= k < |rr| ==> globalcnt[rr[k]] <= globalcnt[m]
    ensures Top(old(globalcnt[..]), m0) ==> Top(globalcnt[..], m)
  {
    ghost var g0 := globalcnt[..];
    m := TrackLoop(rr, globalcnt, m0, Top(g0, m0));
    ghost var g := globalcnt[..];
    assert forall v :: 0 <= v < globalcnt.Length ==> globalcnt[v] == g[v] && old(globalcnt[v]) == g0[v];
  }

  /** The loop of the tracking pass, stated on the counts before and after it. */
  method TrackLoop(rr: seq<nat>, globalcnt: array<int>, m0: nat, ghost wasMax: bool) returns (m: nat)
    requires InRange(rr, globalcnt.Length) && m0 < globalcnt.Length && (wasMax ==> Top(globalcnt[..], m0))
    modifies globalcnt
    ensures Tracking(globalcnt[..], old(globalcnt[..]), rr, m, m0, wasMax)
  {
    ghost var g0 := globalcnt[..];
    m := m0;
    var i := 0;
    assert rr[..0] == [];
    while i < |rr|
      invariant i <= |rr| && Tracking(globalcnt[..], g0, rr[..i], m, m0, wasMax)
    {
      m := TrackOne(rr, i, globalcnt, m, g0, m0, wasMax);
      i := i + 1;
    }
    assert rr[..i] == rr;
  }

  /** One round of the tracking loop: counts rr[i] and updates the leader. */
  method TrackOne(rr: seq<nat>, i: nat, globalcnt: array<int>, m: nat, ghost g0: seq<int>, ghost m0: nat, ghost wasMax: bool)
    returns (m': nat)
    requires i < |rr| && Tracking(globalcnt[..], g0, rr[..i], m, m0, wasMax) && rr[i] < globalcnt.Length
    modifies globalcnt
    ensures Tracking(globalcnt[..], g0, rr[..i + 1], m', m0, wasMax)
  {
    var state := rr[i];
    ghost var g := globalcnt[..];
    TrackStep(g, g0, rr, i, m, m0, wasMax);
    m' := Bump(globalcnt, state, m);
    assert globalcnt[..] == g[state := g[state] + 1];
  }

  /** v when its count is at least m's, m otherwise. */
  function Leader(g: seq<int>, v: nat, m: nat): nat
    requires v < |g| && m < |g|
  {
    if g[v] >= g[m] then v else m
  }

  /** ++globalcnt[v], then v takes the lead from m when it has at least m's count. */
  method Bump(globalcnt: array<int>, v: nat, m: nat) returns (m': nat)
    requires v < globalcnt.Length && m < globalcnt.Length
    modifies globalcnt
    ensures globalcnt[..] == old(globalcnt[..])[v := old(globalcnt[v]) + 1]
    ensures m' == Leader(globalcnt[..], v, m)
  {
    globalcnt[v] := globalcnt[v] + 1;
    m' := if globalcnt[v] >= globalcnt[m] then v else m;
  }

  /**
   * The state of the tracking loop after the vertices xs: g is g0 with xs
   * counted, and m, the first leader or one of xs, is ahead of all of xs
   * (and of every vertex, if m0 was).
   */
  ghost predicate Tracking(g: seq<int>, g0: seq<int>, xs: seq<nat>, m: nat, m0: nat, wasMax: bool) {
    |g| == |g0| && (forall v :: 0 <= v < |g| ==> g[v] == g0[v] + multiset(xs)[v]) &&
    (m == m0 || m in xs) && m0 < |g0| && Leads(g, xs, m) && g[m] >= g0[m0] && (wasMax ==> Top(g, m)) &&
    InRange(xs, |g0|) && m == Replay(g0, xs, m0)
  }

  /** One more vertex v counted, taking the lead on a tie. */
  lemma TrackStep(g: seq<int>, g0: seq<int>, rr: seq<nat>, i: nat, m: nat, m0: nat, wasMax: bool)
    requires i < |rr| && Tracking(g, g0, rr[..i], m, m0, wasMax) && rr[i] < |g|
    ensures Tracking(g[rr[i] := g[rr[i]] + 1], g0, rr[..i + 1], Leader(g[rr[i] := g[rr[i]] + 1], rr[i], m), m0, wasMax)
  {
    var xs, v := rr[..i], rr[i];
    assert rr[..i + 1] == xs + [v];
    LeadsStep(g, xs, m, v);
    var g' := g[v := g[v] + 1];
    assert multiset(xs + [v]) == multiset(xs) + multiset{v};
    assert (xs + [v])[..|xs|] == xs;
  }

  /**
   * encodeRR: packs the vertices of rr whose code has 1 to 19 bits and
   * copies the others, adding to the caller's counters.
   */
  method EncodeRR(tree: HuffmanTree, rr: seq<nat>, out: array<bv8>, encodeSize0: nat, codeCnt0: nat,
                  cpy: array<nat>, copyCnt0: nat)
    returns (encodeSize: nat, codeCnt: nat, copyCnt: nat)
    requires tree.code.Length == tree.cout.Length && InRange(rr, tree.cout.Length)
    requires out.Length >= 8 * |rr| && cpy.Length >= |rr|
    requires forall k :: 0 <= k < out.Length ==> out[k] == 0
    requires out as object != tree.code && out as object != tree.cout && out as object != cpy
    requires cpy as object != tree.cout && cpy as object != tree.code
    modifies out, cpy
    ensures encodeSize >= encodeSize0 && codeCnt >= codeCnt0 && copyCnt >= copyCnt0
    ensures PackedOut(tree.code[..], tree.cout[..], ShortLimit, rr, out[..],
                      encodeSize - encodeSize0, codeCnt - codeCnt0, copyCnt - copyCnt0)
    ensures CopiesOut(tree.cout[..], ShortLimit, rr, true, cpy[..], old(cpy[..]))
  {
    var e, c, k := PackSet(tree.code, tree.cout, rr, ShortLimit, true, out, cpy);
    encodeSize, codeCnt, copyCnt := encodeSize0 + e, codeCnt0 + c, copyCnt0 + k;
  }

  /**
   * encodeRR2: packs the vertices of rr whose code has 1 to 32 bits and
   * copies the others, adding to the caller's counters; each vertex also
   * counts in globalcnt, and the running most-frequent vertex is returned.
   */
  method EncodeRR2(tree: HuffmanTree, rr: seq<nat>, out: array<bv8>, encodeSize0: nat, codeCnt0: nat,
                   cpy: array<nat>, copyCnt0: nat, globalcnt: array<int>, maxvtx: nat)
    returns (encodeSize: nat, codeCnt: nat, copyCnt: nat, maxvtx': nat)
    requires tree.code.Length == tree.cout.Length && InRange(rr, tree.cout.Length)
    requires InRange(rr, globalcnt.Length) && maxvtx < globalcnt.Length
    requires out.Length >= 8 * |rr| && cpy.Length >= |rr|
    requires forall k :: 0 <= k < out.Length ==> out[k] == 0
    requires out as object != tree.code && out as object != tree.cout && out as object != cpy
    requires cpy as object != tree.cout && cpy as object != tree.code
    requires globalcnt as object != tree.code && globalcnt as object != tree.cout
    requires globalcnt as object != out && globalcnt as object != cpy
    modifies out, cpy, globalcnt
    ensures encodeSize >= encodeSize0 && codeCnt >= codeCnt0 && copyCnt >= copyCnt0
    ensures PackedOut(tree.code[..], tree.cout[..], WordLimit, rr, out[..],
                      encodeSize - encodeSize0, codeCnt - codeCnt0, copyCnt - copyCnt0)
    ensures CopiesOut(tree.cout[..], WordLimit, rr, true, cpy[..], old(cpy[..]))
    ensures forall v :: 0 <= v < globalcnt.Length ==> globalcnt[v] == old(globalcnt[v]) + multiset(rr)[v]
    ensures maxvtx' == Replay(old(globalcnt[..]), rr, maxvtx)
    ensures maxvtx' < globalcnt.Length && (maxvtx' == maxvtx || maxvtx' in rr)
    ensures globalcnt[maxvtx'] >= old(globalcnt[maxvtx])
    ensures forall k :: 0 <= k < |rr| ==> globalcnt[rr[k]] <= globalcnt[maxvtx']
    ensures Top(old(globalcnt[..]), maxvtx) ==> Top(globalcnt[..], maxvtx')
  {
    maxvtx' := Track(rr, globalcnt, maxvtx);
    var e, c, k := PackSet(tree.code, tree.cout, rr, WordLimit, true, out, cpy);
    encodeSize, codeCnt, copyCnt := encodeSize0 + e, codeCnt0 + c, copyCnt0 + k;
  }

  /**
   * encodeRR22: moves maxvtx to the front of the set in place, then packs
   * the vertices whose code has 1 to 32 bits, counting from zero; the other
   * vertices are counted, and kept in cpy only when lossyFlag is "N".
   */
  method EncodeRR22(tree: HuffmanTree, rrr: array<nat>, out: array<bv8>, cpy: array<nat>, maxvtx: nat, lossyFlag: string)
    returns (encodeSize: nat, codeCnt: nat, copyCnt: nat)
    requires tree.code.Length == tree.cout.Length && InRange(rrr[..], tree.cout.Length)
    requires out.Length >= 8 * rrr.Length && cpy.Length >= rrr.Length
    requires forall k :: 0 <= k < out.Length ==> out[k] == 0
    requires out as object != tree.code && out as object != tree.cout && out as object != cpy && out as object != rrr
    requires cpy as object != tree.cout && cpy as object != tree.code && cpy != rrr
    requires rrr != tree.cout && rrr as object != tree.code
    modifies rrr, out, cpy
    ensures rrr[..] == Front(old(rrr[..]), maxvtx)
    ensures PackedOut(tree.code[..], tree.cout[..], WordLimit, rrr[..], out[..], encodeSize, codeCnt, copyCnt)
    ensures CopiesOut(tree.cout[..], WordLimit, rrr[..], lossyFlag == "N", cpy[..], old(cpy[..]))
  {
    ghost var s0 := rrr[..];
    MoveToFront(rrr, rrr.Length, maxvtx);
    assert rrr[..rrr.Length] == rrr[..] && s0[..rrr.Length] == s0;
    RangeKept(s0, rrr[..], tree.cout.Length);
    encodeSize, codeCnt, copyCnt := PackSet(tree.code, tree.cout, rrr[..], WordLimit, lossyFlag == "N", out, cpy);
  }

  /**
   * encodeRR3: the set arrives by value; maxvtx is moved to the front of
   * the first `length` vertices of the copy, which are then packed (codes
   * of 1 to 32 bits) or copied, adding to the caller's counters.
   */
  method EncodeRR3(tree: HuffmanTree, tmpR: seq<nat>, length: nat, out: array<bv8>, encodeSize0: nat, codeCnt0: nat,
                   cpy: array<nat>, copyCnt0: nat, maxvtx: nat)
    returns (encodeSize: nat, codeCnt: nat, copyCnt: nat)
    requires length <= |tmpR|
    requires tree.code.Length == tree.cout.Length && InRange(tmpR[..length], tree.cout.Length)
    requires out.Length >= 8 * length && cpy.Length >= length
    requires forall k :: 0 <= k < out.Length ==> out[k] == 0
    requires out as object != tree.code && out as object != tree.cout && out as object != cpy
    requires cpy as object != tree.cout && cpy as object != tree.code
    modifies out, cpy
    ensures encodeSize >= encodeSize0 && codeCnt >= codeCnt0 && copyCnt >= copyCnt0
    ensures PackedOut(tree.code[..], tree.cout[..], WordLimit, Front(tmpR[..length], maxvtx), out[..],
                      encodeSize - encodeSize0, codeCnt - codeCnt0, copyCnt - copyCnt0)
    ensures CopiesOut(tree.cout[..], WordLimit, Front(tmpR[..length], maxvtx), true, cpy[..], old(cpy[..]))
  {
    var a := new nat[|tmpR|](k requires 0 <= k < |tmpR| => tmpR[k]);
    assert a[..length] == tmpR[..length];
    MoveToFront(a, length, maxvtx);
    var rr := a[..length];
    RangeKept(tmpR[..length], rr, tree.cout.Length);
    var e, c, k := PackSet(tree.code, tree.cout, rr, WordLimit, true, out, cpy);
    encodeSize, codeCnt, copyCnt := encodeSize0 + e, codeCnt0 + c, copyCnt0 + k;
  }

  /**
   * One set's entry in the compressed collection: its packed bytes, cut to
   * the counted length, the counters, and its copy list; a set with no
   * copied vertex leaves its copy slot as it was (copy0).
   */
  ghost predicate SetEncoded(C: seq<bv64>, K: seq<nat>, limit: nat, rr: seq<nat>, comp: seq<bv8>, bytes: nat,
                             coded: nat, copy: seq<nat>, copy0: seq<nat>, copied: nat) {
    PackedOut(C, K, limit, rr, comp, bytes, coded, copied) && |comp| == bytes &&
    (copied > 0 ==> copy == Copied(K, limit, rr)) && (copied == 0 ==> copy == copy0)
  }

  /** The first n sets are encoded into the five output columns; the copy slots after them are untouched. */
  ghost predicate SetsEncoded(C: seq<bv64>, K: seq<nat>, limit: nat, sets: seq<RRRSet>, n: nat,
                              compR: seq<seq<bv8>>, compBytes: seq<nat>, codeCnt: seq<nat>,
                              copyR: seq<seq<nat>>, copyR0: seq<seq<nat>>, copyCnt: seq<nat>) {
    n <= |sets| && |compR| == |sets| && |compBytes| == |sets| && |codeCnt| == |sets| &&
    |copyR| == |sets| && |copyR0| == |sets| && |copyCnt| == |sets| &&
    (forall i :: 0 <= i < n ==>
      SetEncoded(C, K, limit, sets[i], compR[i], compBytes[i], codeCnt[i], copyR[i], copyR0[i], copyCnt[i])) &&
    forall i :: n <= i < |sets| ==> copyR[i] == copyR0[i]
  }

  lemma SetsEncodedStep(C: seq<bv64>, K: seq<nat>, limit: nat, sets: seq<RRRSet>, n: nat,
                        compR: seq<seq<bv8>>, compBytes: seq<nat>, codeCnt: seq<nat>,
                        copyR: seq<seq<nat>>, copyR0: seq<seq<nat>>, copyCnt: seq<nat>,
                        comp: seq<bv8>, bytes: nat, coded: nat, copy: seq<nat>, copied: nat)
    requires SetsEncoded(C, K, limit, sets, n, compR, compBytes, codeCnt, copyR, copyR0, copyCnt) && n < |sets|
    requires SetEncoded(C, K, limit, sets[n], comp, bytes, coded, copy, copyR0[n], copied)
    ensures SetsEncoded(C, K, limit, sets, n + 1, compR[n := comp], compBytes[n := bytes], codeCnt[n := coded],
                        copyR[n := copy], copyR0, copyCnt[n := copied])
  {
  }

  /**
   * The body of encodeRRRSets for one set: encodeRR into a zeroed buffer of
   * eight bytes per vertex and a copy buffer of one slot per vertex, from
   * zero counters; the packed bytes are cut to encodeSize and the copies to
   * copy_cnt.
   */
  method EncodeOne(tree: HuffmanTree, rr: seq<nat>)
    returns (comp: seq<bv8>, encodeSize: nat, codeCnt: nat, copies: seq<nat>, copyCnt: nat)
    requires tree.code.Length == tree.cout.Length && InRange(rr, tree.cout.Length)
    ensures PackedOut(tree.code[..], tree.cout[..], ShortLimit, rr, comp, encodeSize, codeCnt, copyCnt)
    ensures |comp| == encodeSize && copies == Copied(tree.cout[..], ShortLimit, rr)
  {
    var tmp := new bv8[8 * |rr|](_ => 0);
    var cpy := new nat[|rr|](_ => 0);
    encodeSize, codeCnt, copyCnt := EncodeRR(tree, rr, tmp, 0, 0, cpy, 0);
    PackedPrefix(tree.code[..], tree.cout[..], ShortLimit, rr, tmp[..], encodeSize, codeCnt, copyCnt);
    comp := tmp[..encodeSize];
    copies := cpy[..copyCnt];
  }

  /**
   * encodeRRRSets: every set of the collection is compressed with encodeRR
   * into its slot of the five output columns. A set with no copied vertex
   * leaves its copyR slot unassigned.
   */
  method EncodeRRRSets(tree: HuffmanTree, sets: seq<RRRSet>, compR: array<seq<bv8>>, compBytes: array<nat>,
                       codeCnt: array<nat>, copyR: array<seq<nat>>, copyCnt: array<nat>)
    requires tree.code.Length == tree.cout.Length && VerticesBelow(sets, tree.cout.Length)
    requires compR.Length == |sets| && compBytes.Length == |sets| && codeCnt.Length == |sets|
    requires copyR.Length == |sets| && copyCnt.Length == |sets|
    requires compBytes != codeCnt && compBytes != copyCnt && codeCnt != copyCnt
    requires compBytes != tree.cout && codeCnt != tree.cout && copyCnt != tree.cout
    requires compR as object != copyR && compR as object != tree.code && compR as object != tree.cout
    requires copyR as object != tree.code && copyR as object != tree.cout
    requires compBytes as object != tree.code && codeCnt as object != tree.code && copyCnt as object != tree.code
    modifies compR, compBytes, codeCnt, copyR, copyCnt
    ensures SetsEncoded(tree.code[..], tree.cout[..], ShortLimit, sets, |sets|, compR[..], compBytes[..], codeCnt[..],
                        copyR[..], old(copyR[..]), copyCnt[..])
  {
    ghost var C, K := tree.code[..], tree.cout[..];
    ghost var copyR0 := copyR[..];
    var i := 0;
    while i < |sets|
      invariant tree.code[..] == C && tree.cout[..] == K && i <= |sets|
      invariant SetsEncoded(C, K, ShortLimit, sets, i, compR[..], compBytes[..], codeCnt[..], copyR[..], copyR0, copyCnt[..])
    {
      assert InRange(sets[i], tree.cout.Length);
      var comp, bytes, coded, copies, copied := EncodeOne(tree, sets[i]);
      ghost var cr, cb, cc, cp, cn := compR[..], compBytes[..], codeCnt[..], copyR[..], copyCnt[..];
      ghost var copy := if copied > 0 then copies else cp[i];
      SetsEncodedStep(C, K, ShortLimit, sets, i, cr, cb, cc, cp, copyR0, cn, comp, bytes, coded, copy, copied);
      compR[i] := comp;
      compBytes[i] := bytes;
      assert compBytes[..] == cb[i := bytes];
      codeCnt[i] := coded;
      assert codeCnt[..] == cc[i := coded];
      copyCnt[i] := copied;
      assert copyCnt[..] == cn[i := copied];
      if copied > 0 {
        copyR[i] := copies;
      }
      assert compR[..] == cr[i := comp] && copyR[..] == cp[i := copy];
      i := i + 1;
    }
  }

  /** g is g0 with one more count for every occurrence in rr. */
  ghost predicate Bumped(g: seq<int>, g0: seq<int>, rr: RRRSet) {
    |g| == |g0| && forall v :: 0 <= v < |g0| ==> g[v] == g0[v] + multiset(rr)[v]
  }

  /**
   * The body of encodeRRRSets2 for one set: encodeRR2 into fresh zeroed
   * buffers from zero counters, then the packed bytes cut to encodeSize and
   * the copies to copy_cnt (both empty, the source's NULL, when nothing was
   * packed or copied).
   */
  method EncodeOne2(tree: HuffmanTree, rr: seq<nat>, globalcnt: array<int>, maxvtx: nat)
    returns (comp: seq<bv8>, encodeSize: nat, codeCnt: nat, copies: seq<nat>, copyCnt: nat, maxvtx': nat)
    requires tree.code.Length == tree.cout.Length && InRange(rr, tree.cout.Length)
    requires InRange(rr, globalcnt.Length) && maxvtx < globalcnt.Length
    requires globalcnt as object != tree.code && globalcnt as object != tree.cout
    modifies globalcnt
    ensures SetEncoded(tree.code[..], tree.cout[..], WordLimit, rr, comp, encodeSize, codeCnt, copies, [], copyCnt)
    ensures Bumped(globalcnt[..], old(globalcnt[..]), rr)
    ensures maxvtx' == Replay(old(globalcnt[..]), rr, maxvtx)
    ensures maxvtx' < globalcnt.Length && (maxvtx' == maxvtx || maxvtx' in rr)
    ensures globalcnt[maxvtx'] >= old(globalcnt[maxvtx]) && Leads(globalcnt[..], rr, maxvtx')
    ensures Top(old(globalcnt[..]), maxvtx) ==> Top(globalcnt[..], maxvtx')
  {
    var tmp := new bv8[8 * |rr|](_ => 0);
    var cpy := new nat[|rr|](_ => 0);
    encodeSize, codeCnt, copyCnt, maxvtx' := EncodeRR2(tree, rr, tmp, 0, 0, cpy, 0, globalcnt, maxvtx);
    PackedPrefix(tree.code[..], tree.cout[..], WordLimit, rr, tmp[..], encodeSize, codeCnt, copyCnt);
    comp := tmp[..encodeSize];
    copies := cpy[..copyCnt];
  }

  /** The five columns hold, entry by entry, the encodings of sets (a set with nothing copied has the empty copy list). */
  ghost predicate Appended(C: seq<bv64>, K: seq<nat>, limit: nat, sets: seq<RRRSet>,
                           compR: seq<seq<bv8>>, compBytes: seq<nat>, codeCnt: seq<nat>,
                           copyR: seq<seq<nat>>, copyCnt: seq<nat>) {
    |compR| == |sets| && |compBytes| == |sets| && |codeCnt| == |sets| && |copyR| == |sets| && |copyCnt| == |sets| &&
    forall i :: 0 <= i < |sets| ==>
      SetEncoded(C, K, limit, sets[i], compR[i], compBytes[i], codeCnt[i], copyR[i], [], copyCnt[i])
  }

  /** The counts of g are those of g0 plus every occurrence in sets. */
  ghost predicate Counted(g: seq<int>, g0: seq<int>, sets: seq<RRRSet>) {
    |g| == |g0| && forall v :: 0 <= v < |g| ==> g[v] == g0[v] + Occurrences(sets, v)
  }

  /** g0 with every occurrence in sets counted. */
  function CountedFrom(g0: seq<int>, sets: seq<RRRSet>): (g: seq<int>)
    ensures Counted(g, g0, sets)
  {
    seq(|g0|, (v: int) requires 0 <= v < |g0| => g0[v] + Occurrences(sets, v))
  }

  /**
   * The running maximum of encodeRRRSets2, replayed set by set: each set
   * is tracked (Replay) from the counts that the sets before it left.
   */
  function ReplaySets(g0: seq<int>, sets: seq<RRRSet>, m0: nat): (m: nat)
    requires m0 < |g0| && VerticesBelow(sets, |g0|)
    ensures m < |g0|
  {
    if |sets| == 0 then m0
    else
      var front := sets[..|sets| - 1];
      Replay(CountedFrom(g0, front), sets[|sets| - 1], ReplaySets(g0, front, m0))
  }

  /** m's count is at least that of every vertex of every set. */
  ghost predicate LeadsAll(g: seq<int>, sets: seq<RRRSet>, m: nat) {
    forall i :: 0 <= i < |sets| ==> Leads(g, sets[i], m)
  }

  lemma OccurrencesAppend(sets: seq<RRRSet>, rr: RRRSet, v: nat)
    ensures Occurrences(sets + [rr], v) == Occurrences(sets, v) + multiset(rr)[v]
  {
    assert (sets + [rr])[..|sets|] == sets;
  }

  lemma CountedStep(g: seq<int>, g': seq<int>, g0: seq<int>, sets: seq<RRRSet>, rr: RRRSet)
    requires Counted(g, g0, sets) && Bumped(g', g, rr)
    ensures Counted(g', g0, sets + [rr])
  {
    forall v | 0 <= v < |g'| ensures g'[v] == g0[v] + Occurrences(sets + [rr], v) {
      OccurrencesAppend(sets, rr, v);
    }
  }

  /**
   * After one more set is counted, the new leader m' still leads every
   * earlier vertex: those outside rr kept their count, which was at most
   * m's, and m' has at least m's old count.
   */
  lemma LeadsAllStep(g: seq<int>, g': seq<int>, sets: seq<RRRSet>, rr: RRRSet, m: nat, m': nat)
    requires LeadsAll(g, sets, m) && m < |g| && Bumped(g', g, rr)
    requires m' < |g'| && g'[m'] >= g[m] && Leads(g', rr, m')
    ensures LeadsAll(g', sets + [rr], m')
  {
    forall i | 0 <= i < |sets| + 1 ensures Leads(g', (sets + [rr])[i], m') {
      if i < |sets| {
        assert (sets + [rr])[i] == sets[i];
        forall k | 0 <= k < |sets[i]| ensures sets[i][k] < |g'| && g'[sets[i][k]] <= g'[m'] {
          var v := sets[i][k];
          assert Leads(g, sets[i], m);
          if v in rr {
            var k' :| 0 <= k' < |rr| && rr[k'] == v;
          }
        }
      }
    }
  }

  /**
   * What encodeRRRSets2 has done after its first j sets: their encodings are
   * the j new column entries, globalcnt (g, from g0) counts their vertices,
   * and the running maximum m leads all of them.
   */
  ghost predicate Progress(C: seq<bv64>, K: seq<nat>, sets: seq<RRRSet>, j: nat,
                           nc: seq<seq<bv8>>, nb: seq<nat>, ncc: seq<nat>, ncp: seq<seq<nat>>, nn: seq<nat>,
                           g: seq<int>, g0: seq<int>, m: nat, m0: nat) {
    j <= |sets| && Appended(C, K, WordLimit, sets[..j], nc, nb, ncc, ncp, nn) &&
    Counted(g, g0, sets[..j]) && m < |g| && m0 < |g0| && (m == m0 || Occurrences(sets[..j], m) > 0) &&
    g[m] >= g0[m0] && LeadsAll(g, sets[..j], m) && (Top(g0, m0) ==> Top(g, m))
  }

  /** m is the running maximum that encodeRRRSets2 has after its first j sets, from m0 over the counts g0. */
  ghost predicate Replayed(g0: seq<int>, sets: seq<RRRSet>, j: nat, m: nat, m0: nat) {
    j <= |sets| && m0 < |g0| && VerticesBelow(sets[..j], |g0|) && m == ReplaySets(g0, sets[..j], m0)
  }

  lemma ReplayedStep(g: seq<int>, g0: seq<int>, sets: seq<RRRSet>, j: nat, m: nat, m': nat, m0: nat)
    requires Replayed(g0, sets, j, m, m0) && Counted(g, g0, sets[..j]) && j < |sets|
    requires InRange(sets[j], |g|) && m' == Replay(g, sets[j], m)
    ensures Replayed(g0, sets, j + 1, m', m0)
  {
    assert g == CountedFrom(g0, sets[..j]);
    assert sets[..j + 1][..j] == sets[..j];
  }

  /** One round of encodeRRRSets2: set j is encoded and counted, and its results appended. */
  method EncodeStep2(tree: HuffmanTree, rr: RRRSet, globalcnt: array<int>, ghost C: seq<bv64>, ghost K: seq<nat>,
                     ghost sets: seq<RRRSet>, j: nat, nc: seq<seq<bv8>>, nb: seq<nat>, ncc: seq<nat>,
                     ncp: seq<seq<nat>>, nn: seq<nat>, ghost g0: seq<int>, m0: nat, m: nat)
    returns (nc': seq<seq<bv8>>, nb': seq<nat>, ncc': seq<nat>, ncp': seq<seq<nat>>, nn': seq<nat>, m': nat)
    requires tree.code[..] == C && tree.cout[..] == K && |C| == |K|
    requires j < |sets| && sets[j] == rr && InRange(rr, |K|) && InRange(rr, globalcnt.Length)
    requires globalcnt as object != tree.code && globalcnt as object != tree.cout
    requires Progress(C, K, sets, j, nc, nb, ncc, ncp, nn, globalcnt[..], g0, m, m0) && Replayed(g0, sets, j, m, m0)
    modifies globalcnt
    ensures Progress(C, K, sets, j + 1, nc', nb', ncc', ncp', nn', globalcnt[..], g0, m', m0)
    ensures Replayed(g0, sets, j + 1, m', m0)
  {
    ghost var g := globalcnt[..];
    var comp, bytes, coded, copies, copied;
    comp, bytes, coded, copies, copied, m' := EncodeOne2(tree, rr, globalcnt, m);
    ReplayedStep(g, g0, sets, j, m, m', m0);
    ProgressStep(C, K, sets, j, nc, nb, ncc, ncp, nn, g, globalcnt[..], g0, m, m', m0, comp, bytes, coded, copies, copied);
    nc', nb', ncc', ncp', nn' := nc + [comp], nb + [bytes], ncc + [coded], ncp + [copies], nn + [copied];
  }

  lemma ProgressStep(C: seq<bv64>, K: seq<nat>, sets: seq<RRRSet>, j: nat,
                     nc: seq<seq<bv8>>, nb: seq<nat>, ncc: seq<nat>, ncp: seq<seq<nat>>, nn: seq<nat>,
                     g: seq<int>, g': seq<int>, g0: seq<int>, m: nat, m': nat, m0: nat,
                     comp: seq<bv8>, bytes: nat, coded: nat, copies: seq<nat>, copied: nat)
    requires Progress(C, K, sets, j, nc, nb, ncc, ncp, nn, g, g0, m, m0) && j < |sets|
    requires SetEncoded(C, K, WordLimit, sets[j], comp, bytes, coded, copies, [], copied)
    requires Bumped(g', g, sets[j]) && m' < |g'| && (m' == m || m' in sets[j])
    requires g'[m'] >= g[m] && Leads(g', sets[j], m') && (Top(g, m) ==> Top(g', m'))
    ensures Progress(C, K, sets, j + 1, nc + [comp], nb + [bytes], ncc + [coded], ncp + [copies], nn + [copied],
                     g', g0, m', m0)
  {
    var rr := sets[j];
    assert sets[..j + 1] == sets[..j] + [rr];
    CountedStep(g, g', g0, sets[..j], rr);
    LeadsAllStep(g, g', sets[..j], rr, m, m');
    OccurrencesAppend(sets[..j], rr, m');
  }

  /**
   * encodeRRRSets2: every set from blockoffset on is compressed with
   * encodeRR2, its five results are appended to the output columns, and the
   * set is cleared; globalcnt gains every occurrence in those sets, and the
   * running most-frequent vertex ends ahead of every vertex they hold.
   */
  method EncodeRRRSets2(tree: HuffmanTree, R: array<RRRSet>, blockoffset: nat,
                        compR: seq<seq<bv8>>, compBytes: seq<nat>, codeCnt: seq<nat>,
                        copyR: seq<seq<nat>>, copyCnt: seq<nat>, globalcnt: array<int>, maxvtx: nat)
    returns (compR': seq<seq<bv8>>, compBytes': seq<nat>, codeCnt': seq<nat>,
             copyR': seq<seq<nat>>, copyCnt': seq<nat>, maxvtx': nat)
    requires tree.code.Length == tree.cout.Length && blockoffset <= R.Length
    requires VerticesBelow(R[blockoffset..], tree.cout.Length) && VerticesBelow(R[blockoffset..], globalcnt.Length)
    requires maxvtx < globalcnt.Length
    requires globalcnt as object != tree.code && globalcnt as object != tree.cout
    requires R as object != tree.code && R as object != tree.cout && R as object != globalcnt
    modifies R, globalcnt
    ensures R[..blockoffset] == old(R[..blockoffset]) && forall k :: blockoffset <= k < R.Length ==> R[k] == []
    ensures |compR'| >= |compR| && compR'[..|compR|] == compR && |compBytes'| >= |compBytes| && compBytes'[..|compBytes|] == compBytes
    ensures |codeCnt'| >= |codeCnt| && codeCnt'[..|codeCnt|] == codeCnt && |copyR'| >= |copyR| && copyR'[..|copyR|] == copyR
    ensures |copyCnt'| >= |copyCnt| && copyCnt'[..|copyCnt|] == copyCnt
    ensures Progress(tree.code[..], tree.cout[..], old(R[blockoffset..]), R.Length - blockoffset,
                     compR'[|compR|..], compBytes'[|compBytes|..], codeCnt'[|codeCnt|..], copyR'[|copyR|..],
                     copyCnt'[|copyCnt|..], globalcnt[..], old(globalcnt[..]), maxvtx', maxvtx)
    ensures Replayed(old(globalcnt[..]), old(R[blockoffset..]), R.Length - blockoffset, maxvtx', maxvtx)
  {
    var nc, nb, ncc, ncp, nn;
    nc, nb, ncc, ncp, nn, maxvtx' := EncodeBlock2(tree, R, blockoffset, globalcnt, maxvtx);
    compR', compBytes', codeCnt', copyR', copyCnt' := compR + nc, compBytes + nb, codeCnt + ncc, copyR + ncp, copyCnt + nn;
    assert compR'[..|compR|] == compR && compR'[|compR|..] == nc;
    assert compBytes'[..|compBytes|] == compBytes && compBytes'[|compBytes|..] == nb;
    assert codeCnt'[..|codeCnt|] == codeCnt && codeCnt'[|codeCnt|..] == ncc;
    assert copyR'[..|copyR|] == copyR && copyR'[|copyR|..] == ncp;
    assert copyCnt'[..|copyCnt|] == copyCnt && copyCnt'[|copyCnt|..] == nn;
  }

  /** The loop of encodeRRRSets2: the sets from blockoffset on, encoded into fresh columns. */
  method EncodeBlock2(tree: HuffmanTree, R: array<RRRSet>, blockoffset: nat, globalcnt: array<int>, maxvtx: nat)
    returns (nc: seq<seq<bv8>>, nb: seq<nat>, ncc: seq<nat>, ncp: seq<seq<nat>>, nn: seq<nat>, maxvtx': nat)
    requires tree.code.Length == tree.cout.Length && blockoffset <= R.Length
    requires VerticesBelow(R[blockoffset..], tree.cout.Length) && VerticesBelow(R[blockoffset..], globalcnt.Length)
    requires maxvtx < globalcnt.Length
    requires globalcnt as object != tree.code && globalcnt as object != tree.cout
    requires R as object != tree.code && R as object != tree.cout && R as object != globalcnt
    modifies R, globalcnt
    ensures R[..blockoffset] == old(R[..blockoffset]) && forall k :: blockoffset <= k < R.Length ==> R[k] == []
    ensures Progress(tree.code[..], tree.cout[..], old(R[blockoffset..]), R.Length - blockoffset,
                     nc, nb, ncc, ncp, nn, globalcnt[..], old(globalcnt[..]), maxvtx', maxvtx)
    ensures Replayed(old(globalcnt[..]), old(R[blockoffset..]), R.Length - blockoffset, maxvtx', maxvtx)
  {
    ghost var C, K := tree.code[..], tree.cout[..];
    ghost var R0, g0 := R[..], globalcnt[..];
    ghost var sets := R[blockoffset..];
    nc, nb, ncc, ncp, nn := [], [], [], [], [];
    maxvtx' := maxvtx;
    var i := blockoffset;
    assert sets[..0] == [];
    while i < R.Length
      invariant blockoffset <= i <= R.Length && tree.code[..] == C && tree.cout[..] == K
      invariant Cleared(R[..], R0, blockoffset, i)
      invariant Progress(C, K, sets, i - blockoffset, nc, nb, ncc, ncp, nn, globalcnt[..], g0, maxvtx', maxvtx)
      invariant Replayed(g0, sets, i - blockoffset, maxvtx', maxvtx)
      invariant sets == R0[blockoffset..] && VerticesBelow(sets, |K|) && VerticesBelow(sets, globalcnt.Length)
    {
      nc, nb, ncc, ncp, nn, maxvtx' := EncodeAt(tree, R, i, blockoffset, globalcnt, C, K, R0, sets, nc, nb, ncc, ncp, nn, g0, maxvtx, maxvtx');
      i := i + 1;
    }
    assert forall k :: blockoffset <= k < R.Length ==> R[k] == R[..][k];
  }

  /** One turn of EncodeBlock2's loop: encodes R[i], then releases it. */
  method EncodeAt(tree: HuffmanTree, R: array<RRRSet>, i: nat, blockoffset: nat, globalcnt: array<int>,
                  ghost C: seq<bv64>, ghost K: seq<nat>, ghost R0: seq<RRRSet>, ghost sets: seq<RRRSet>,
                  nc: seq<seq<bv8>>, nb: seq<nat>, ncc: seq<nat>, ncp: seq<seq<nat>>, nn: seq<nat>,
                  ghost g0: seq<int>, m0: nat, m: nat)
    returns (nc': seq<seq<bv8>>, nb': seq<nat>, ncc': seq<nat>, ncp': seq<seq<nat>>, nn': seq<nat>, m': nat)
    requires tree.code[..] == C && tree.cout[..] == K && |C| == |K|
    requires blockoffset <= i < R.Length && Cleared(R[..], R0, blockoffset, i) && sets == R0[blockoffset..]
    requires VerticesBelow(sets, |K|) && VerticesBelow(sets, globalcnt.Length)
    requires globalcnt as object != tree.code && globalcnt as object != tree.cout
    requires R as object != tree.code && R as object != tree.cout && R as object != globalcnt
    requires Progress(C, K, sets, i - blockoffset, nc, nb, ncc, ncp, nn, globalcnt[..], g0, m, m0)
    requires Replayed(g0, sets, i - blockoffset, m, m0)
    modifies R, globalcnt
    ensures tree.code[..] == C && tree.cout[..] == K && Cleared(R[..], R0, blockoffset, i + 1)
    ensures Progress(C, K, sets, i + 1 - blockoffset, nc', nb', ncc', ncp', nn', globalcnt[..], g0, m', m0)
    ensures Replayed(g0, sets, i + 1 - blockoffset, m', m0)
  {
    var rr := R[i];
    var j := i - blockoffset;
    assert rr == sets[j];
    assert InRange(rr, |K|) && InRange(rr, globalcnt.Length) by {
      forall k | 0 <= k < |rr| ensures rr[k] < |K| && rr[k] < globalcnt.Length {
        assert sets[j][k] == rr[k];
      }
    }
    nc', nb', ncc', ncp', nn', m' := EncodeStep2(tree, rr, globalcnt, C, K, sets, j, nc, nb, ncc, ncp, nn, g0, m0, m);
    ClearAt(R, i, R0, blockoffset);
  }

  /** R is R0 with the sets of [lo, i) released and the others untouched. */
  ghost predicate Cleared(R: seq<RRRSet>, R0: seq<RRRSet>, lo: nat, i: nat) {
    lo <= i <= |R| == |R0| && R[..lo] == R0[..lo] &&
    (forall k :: lo <= k < i ==> R[k] == []) && (forall k :: i <= k < |R| ==> R[k] == R0[k])
  }

  /** Releases the encoded set R[i]. */
  method ClearAt(R: array<RRRSet>, i: nat, ghost R0: seq<RRRSet>, ghost lo: nat)
    requires i < R.Length && Cleared(R[..], R0, lo, i)
    modifies R
    ensures Cleared(R[..], R0, lo, i + 1)
  {
    R[i] := [];
  }
}
