/*
 * The seed search over the compressed sets: DecompAndFind and
 * DecompAndFind2 (one round: find the sets that hold the current seed,
 * mark them deleted, and count the vertices of the other live sets to pick
 * the next seed) and the two HuffmanFind drivers that build the tree,
 * compress the sets and run rounds until k seeds are chosen or every set
 * is covered.
 *
 * A compressed set i is read back as an Entry: the codeCnt[i] symbols
 * decoded from compR[i] and the first copyCnt[i] copied vertices of
 * copyR[i]. A round is specified on the entries, as the code reads them;
 * EntryOfSet then shows that the entries the encoders produce are the sets
 * themselves, so that a round is one step of the greedy maximum-coverage
 * search over the original sets.
 */
module HuffmanFind {
  import opened BigEndian
  import opened CodeTree
  import opened Decoder
  import opened Counting
  import opened Frequencies
  import opened Huffman
  import opened Encoder
  import opened EncodeSets
  import opened TreeDepth

  /** A compressed set read back: its decoded codes and its copied vertices. */
  datatype Entry = Entry(coded: seq<nat>, copied: seq<nat>)

  /** Every compressed set below n decodes, and its copy count fits its copy list. */
  ghost predicate Readable(t: Tree, compR: seq<seq<bv8>>, codeCnt: seq<nat>, copyR: seq<seq<nat>>,
                           copyCnt: seq<nat>, n: nat) {
    n <= |compR| && n <= |codeCnt| && n <= |copyR| && n <= |copyCnt| &&
    forall i :: 0 <= i < n ==> DecodeFrom(t, compR[i], codeCnt[i]).Some? && copyCnt[i] <= |copyR[i]|
  }

  ghost function EntryOf(t: Tree, comp: seq<bv8>, coded: nat, copy: seq<nat>, copied: nat): Entry
    requires DecodeFrom(t, comp, coded).Some? && copied <= |copy|
  {
    Entry(DecodeFrom(t, comp, coded).value.0, copy[..copied])
  }

  /** The first n compressed sets, read back. */
  ghost function Entries(t: Tree, compR: seq<seq<bv8>>, codeCnt: seq<nat>, copyR: seq<seq<nat>>,
                         copyCnt: seq<nat>, n: nat): (es: seq<Entry>)
    requires Readable(t, compR, codeCnt, copyR, copyCnt, n)
    ensures |es| == n
    ensures forall i :: 0 <= i < n ==> es[i] == EntryOf(t, compR[i], codeCnt[i], copyR[i], copyCnt[i])
  {
    seq(n, i requires 0 <= i < n => EntryOf(t, compR[i], codeCnt[i], copyR[i], copyCnt[i]))
  }

  /** Every vertex of the entry is below n, so it has a counter. */
  ghost predicate EntryBelow(e: Entry, n: nat) {
    (forall j :: 0 <= j < |e.coded| ==> e.coded[j] < n) && (forall j :: 0 <= j < |e.copied| ==> e.copied[j] < n)
  }

  ghost predicate EntriesBelow(es: seq<Entry>, n: nat) {
    forall i :: 0 <= i < |es| ==> EntryBelow(es[i], n)
  }

  /**
   * The round finds x in an entry: among the decoded codes (decodeCheck
   * only reports it below an inner root) or among the copies.
   */
  ghost predicate Found(t: Tree, e: Entry, x: nat) {
    (t.Inner? && x in e.coded) || x in e.copied
  }

  /** All the vertices of an entry, with repeats. */
  ghost function Bag(e: Entry): multiset<nat> {
    multiset(e.coded) + multiset(e.copied)
  }

  /** Number of live (not deleted) entries in which the round finds x. */
  ghost function Hits(t: Tree, es: seq<Entry>, deleted: seq<bool>, x: nat): nat
    requires |deleted| == |es|
  {
    if |es| == 0 then 0
    else
      Hits(t, es[..|es| - 1], deleted[..|es| - 1], x) +
      (if !deleted[|es| - 1] && Found(t, es[|es| - 1], x) then 1 else 0)
  }

  /** The vertices of the live entries in which the round does not find x: what globalcnt counts. */
  ghost function Tally(t: Tree, es: seq<Entry>, deleted: seq<bool>, x: nat): multiset<nat>
    requires |deleted| == |es|
  {
    if |es| == 0 then multiset{}
    else
      Tally(t, es[..|es| - 1], deleted[..|es| - 1], x) +
      (if !deleted[|es| - 1] && !Found(t, es[|es| - 1], x) then Bag(es[|es| - 1]) else multiset{})
  }

  /** The counters of g are those of the multiset b. */
  ghost predicate CountsAre(g: seq<nat>, b: multiset<nat>) {
    forall v :: 0 <= v < |g| ==> g[v] == b[v]
  }

  /** g is g0 plus the multiset b, counter by counter. */
  ghost predicate Added(g: seq<nat>, g0: seq<nat>, b: multiset<nat>) {
    |g| == |g0| && forall v :: 0 <= v < |g0| ==> g[v] == g0[v] + b[v]
  }

  /** The counters of vertices 0 .. n - 1 for the multiset b. */
  ghost function Counter(b: multiset<nat>, n: nat): (g: seq<nat>)
    ensures |g| == n && CountsAre(g, b)
  {
    seq(n, v => b[v])
  }

  /**
   * m is the first vertex of highest count (the scan keeps the first of a
   * tie, since it replaces only on a strictly greater count), or 0 when
   * every count is zero.
   */
  ghost predicate FirstMax(g: seq<nat>, m: nat) {
    if forall v :: 0 <= v < |g| ==> g[v] == 0 then m == 0
    else
      m < |g| && g[m] > 0 &&
      (forall v :: 0 <= v < |g| ==> g[v] <= g[m]) &&
      (forall v :: 0 <= v < m ==> g[v] < g[m])
  }

  /** One more to the counter of each vertex of xs. */
  method CountInto(globalcnt: array<nat>, xs: seq<nat>)
    requires forall j :: 0 <= j < |xs| ==> xs[j] < globalcnt.Length
    modifies globalcnt
    ensures forall v :: 0 <= v < globalcnt.Length ==> globalcnt[v] == old(globalcnt[v]) + multiset(xs)[v]
  {
    ghost var g0 := globalcnt[..];
    var j := 0;
    while j < |xs|
      invariant j <= |xs| && globalcnt.Length == |g0|
      invariant forall v :: 0 <= v < |g0| ==> globalcnt[v] == g0[v] + multiset(xs[..j])[v]
    {
      assert xs[..j + 1] == xs[..j] + [xs[j]];
      globalcnt[xs[j]] := globalcnt[xs[j]] + 1;
      j := j + 1;
    }
    assert xs[..j] == xs;
  }

  /** The search of the first `copied` copies for x, stopping at the first match. */
  method SearchCopies(copy: seq<nat>, copied: nat, x: nat) returns (found: bool)
    requires copied <= |copy|
    ensures found == (x in copy[..copied])
  {
    found := false;
    var j := 0;
    while j < copied
      invariant j <= copied && x !in copy[..j]
    {
      if copy[j] == x {
        found := true;
        break;
      }
      assert copy[..j + 1] == copy[..j] + [copy[j]];
      j := j + 1;
    }
    assert found ==> copy[..copied][j] == x;
    assert !found ==> copy[..j] == copy[..copied];
  }

  /**
   * The per-set work of a round on a live set: decodeCheck for x, then a
   * search of the copies; when x is in neither, every decoded and copied
   * vertex counts once more in globalcnt.
   */
  method ScanEntry(t: Tree, comp: seq<bv8>, coded: nat, copy: seq<nat>, copied: nat, x: nat,
                   globalcnt: array<nat>) returns (found: bool)
    requires DecodeFrom(t, comp, coded).Some? && copied <= |copy|
    requires EntryBelow(EntryOf(t, comp, coded, copy, copied), globalcnt.Length)
    modifies globalcnt
    ensures found == Found(t, EntryOf(t, comp, coded, copy, copied), x)
    ensures Added(globalcnt[..], old(globalcnt[..]), if found then multiset{} else Bag(EntryOf(t, comp, coded, copy, copied)))
  {
    ghost var e := EntryOf(t, comp, coded, copy, copied);
    assert e == EntryOf(t, comp, coded, copy, copied);
    var decodes := new nat[coded];
    found := DecodeCheck(comp, coded, t, decodes, x, false);
    if !found {
      found := SearchCopies(copy, copied, x);
    }
    if !found {
      assert decodes[..coded] == e.coded;
      CountEntry(globalcnt, decodes[..coded], copy[..copied], e);
    }
  }

  /** Both CountInto calls of a round on an entry where x is not found: every vertex of e counts once more. */
  method CountEntry(globalcnt: array<nat>, coded: seq<nat>, copied: seq<nat>, ghost e: Entry)
    requires e == Entry(coded, copied) && EntryBelow(e, globalcnt.Length)
    modifies globalcnt
    ensures Added(globalcnt[..], old(globalcnt[..]), Bag(e))
  {
    CountInto(globalcnt, coded);
    CountInto(globalcnt, copied);
  }

  /** The scan for the next seed: the first vertex whose count is strictly above all before it. */
  method FirstMaxIndex(globalcnt: array<nat>) returns (nxtmax: nat)
    ensures FirstMax(globalcnt[..], nxtmax)
  {
    var tmpmax := 0;
    nxtmax := 0;
    var i := 0;
    while i < globalcnt.Length
      invariant i <= globalcnt.Length
      invariant tmpmax == 0 ==> nxtmax == 0 && forall v :: 0 <= v < i ==> globalcnt[v] == 0
      invariant tmpmax > 0 ==> nxtmax < i && globalcnt[nxtmax] == tmpmax
      invariant forall v :: 0 <= v < i ==> globalcnt[v] <= tmpmax
      invariant forall v :: 0 <= v < nxtmax ==> globalcnt[v] < tmpmax
    {
      if globalcnt[i] > tmpmax {
        tmpmax := globalcnt[i];
        nxtmax := i;
      }
      i := i + 1;
    }
  }

  lemma HitsTallyStep(t: Tree, es: seq<Entry>, deleted: seq<bool>, x: nat, i: nat)
    requires i < |es| == |deleted|
    ensures Hits(t, es[..i + 1], deleted[..i + 1], x) ==
      Hits(t, es[..i], deleted[..i], x) + (if !deleted[i] && Found(t, es[i], x) then 1 else 0)
    ensures Tally(t, es[..i + 1], deleted[..i + 1], x) ==
      Tally(t, es[..i], deleted[..i], x) + (if !deleted[i] && !Found(t, es[i], x) then Bag(es[i]) else multiset{})
  {
    assert es[..i + 1][..i] == es[..i] && deleted[..i + 1][..i] == deleted[..i];
  }

  /**
   * The round after the first i entries: those that were live and held x
   * are now deleted, the rest of the flags are as before, freq counts the
   * deletions and g the vertices of the live entries without x.
   */
  ghost predicate Scanned(t: Tree, es: seq<Entry>, d0: seq<bool>, d: seq<bool>, x: nat, i: nat, freq: nat, g: seq<nat>) {
    i <= |es| && |d0| == |es| && |d| == |es| &&
    (forall j :: 0 <= j < i ==> d[j] == (d0[j] || Found(t, es[j], x))) &&
    (forall j :: i <= j < |es| ==> d[j] == d0[j]) &&
    freq == Hits(t, es[..i], d0[..i], x) && CountsAre(g, Tally(t, es[..i], d0[..i], x))
  }

  /** A whole round: the flags, the number of sets found and the next seed. */
  ghost predicate Round(t: Tree, es: seq<Entry>, d0: seq<bool>, d: seq<bool>, x: nat, freq: nat, nxtmax: nat, n: nat) {
    |d0| == |es| && |d| == |es| &&
    (forall j :: 0 <= j < |es| ==> d[j] == (d0[j] || Found(t, es[j], x))) &&
    freq == Hits(t, es, d0, x) && FirstMax(Counter(Tally(t, es, d0, x), n), nxtmax)
  }

  lemma ScannedSkip(t: Tree, es: seq<Entry>, d0: seq<bool>, d: seq<bool>, x: nat, i: nat, freq: nat, g: seq<nat>)
    requires Scanned(t, es, d0, d, x, i, freq, g) && i < |es| && d[i]
    ensures Scanned(t, es, d0, d, x, i + 1, freq, g)
  {
    HitsTallyStep(t, es, d0, x, i);
  }

  lemma ScannedLive(t: Tree, es: seq<Entry>, d0: seq<bool>, d: seq<bool>, x: nat, i: nat, freq: nat,
                    g: seq<nat>, g': seq<nat>, found: bool)
    requires Scanned(t, es, d0, d, x, i, freq, g) && i < |es| && !d[i] && found == Found(t, es[i], x)
    requires Added(g', g, if found then multiset{} else Bag(es[i]))
    ensures Scanned(t, es, d0, d[i := found], x, i + 1, if found then freq + 1 else freq, g')
  {
    HitsTallyStep(t, es, d0, x, i);
  }

  lemma ScannedDone(t: Tree, es: seq<Entry>, d0: seq<bool>, d: seq<bool>, x: nat, freq: nat,
                    g: seq<nat>, nxtmax: nat)
    requires Scanned(t, es, d0, d, x, |es|, freq, g) && FirstMax(g, nxtmax)
    ensures Round(t, es, d0, d, x, freq, nxtmax, |g|)
  {
    assert es[..|es|] == es && d0[..|es|] == d0;
    assert g == Counter(Tally(t, es, d0, x), |g|);
  }

  /** The loop body of a round for set i: skip it when deleted, otherwise scan it and update the flag and freq. */
  method ScanStep(hroot: Tree, ghost es: seq<Entry>, compR: seq<seq<bv8>>, codeCnt: seq<nat>, copyR: seq<seq<nat>>,
                  copyCnt: seq<nat>, totNodes: nat, ghost d0: seq<bool>, deleteflag: array<bool>, s1: nat,
                  maxvtx: nat, i: nat, freq: nat, globalcnt: array<nat>)
    returns (freq': nat)
    requires Readable(hroot, compR, codeCnt, copyR, copyCnt, s1) && es == Entries(hroot, compR, codeCnt, copyR, copyCnt, s1)
    requires EntriesBelow(es, totNodes) && globalcnt.Length == totNodes && s1 <= deleteflag.Length && i < s1
    requires Scanned(hroot, es, d0, deleteflag[..s1], maxvtx, i, freq, globalcnt[..])
    modifies deleteflag, globalcnt
    ensures Scanned(hroot, es, d0, deleteflag[..s1], maxvtx, i + 1, freq', globalcnt[..])
    ensures deleteflag[s1..] == old(deleteflag[s1..])
  {
    ghost var g := globalcnt[..];
    ghost var d := deleteflag[..s1];
    freq' := freq;
    if !deleteflag[i] {
      assert EntryBelow(es[i], totNodes);
      var found := ScanEntry(hroot, compR[i], codeCnt[i], copyR[i], copyCnt[i], maxvtx, globalcnt);
      ScannedLive(hroot, es, d0, d, maxvtx, i, freq, g, globalcnt[..], found);
      if found {
        freq' := freq + 1;
        deleteflag[i] := true;
      }
      assert deleteflag[..s1] == d[i := found];
    } else {
      ScannedSkip(hroot, es, d0, d, maxvtx, i, freq, g);
    }
  }

  /** The round itself, from the root node the decoders start at. */
  method ScanAll(hroot: Tree, totNodes: nat, compR: seq<seq<bv8>>, codeCnt: seq<nat>, copyR: seq<seq<nat>>,
                 copyCnt: seq<nat>, deleteflag: array<bool>, s1: nat, maxvtx: nat)
    returns (nxtmax: nat, freq: nat)
    requires s1 <= deleteflag.Length && Readable(hroot, compR, codeCnt, copyR, copyCnt, s1)
    requires EntriesBelow(Entries(hroot, compR, codeCnt, copyR, copyCnt, s1), totNodes)
    modifies deleteflag
    ensures Round(hroot, Entries(hroot, compR, codeCnt, copyR, copyCnt, s1),
                  old(deleteflag[..s1]), deleteflag[..s1], maxvtx, freq, nxtmax, totNodes)
    ensures deleteflag[s1..] == old(deleteflag[s1..])
  {
    ghost var es := Entries(hroot, compR, codeCnt, copyR, copyCnt, s1);
    ghost var d0 := deleteflag[..s1];
    ghost var rest := deleteflag[s1..];
    var globalcnt := new nat[totNodes](_ => 0);
    freq := 0;
    var i := 0;
    while i < s1
      invariant deleteflag[s1..] == rest
      invariant Scanned(hroot, es, d0, deleteflag[..s1], maxvtx, i, freq, globalcnt[..])
    {
      freq := ScanStep(hroot, es, compR, codeCnt, copyR, copyCnt, totNodes, d0, deleteflag, s1, maxvtx, i, freq, globalcnt);
      i := i + 1;
    }
    assert i == s1 == |es|;
    ghost var g, d := globalcnt[..], deleteflag[..s1];
    nxtmax := FirstMaxIndex(globalcnt);
    assert globalcnt[..] == g && deleteflag[..s1] == d;
    ScannedDone(hroot, es, d0, d, maxvtx, freq, g, nxtmax);
  }

  /**
   * DecompAndFind (and DecompAndFind2, the same code over vectors): one
   * round of the search for seed x over the first s1 compressed sets,
   * decoding from the last node of the pool. A live set in which x is
   * found is counted in freq and marked deleted; the vertices of every
   * other live set are counted, and the result is the first vertex of
   * highest count, or 0 when nothing was counted.
   */
  method DecompAndFind(tree: HuffmanTree, totNodes: nat, compR: seq<seq<bv8>>, compBytes: seq<nat>,
                       codeCnt: seq<nat>, copyR: seq<seq<nat>>, copyCnt: seq<nat>, deleteflag: array<bool>,
                       s1: nat, maxvtx: nat)
    returns (nxtmax: nat, freq: nat)
    requires tree.Valid() && 0 < tree.nNodes && s1 <= deleteflag.Length
    requires deleteflag as object != tree.pool && deleteflag as object != tree.qq
    requires Readable(tree.TopNode(), compR, codeCnt, copyR, copyCnt, s1)
    requires EntriesBelow(Entries(tree.TopNode(), compR, codeCnt, copyR, copyCnt, s1), totNodes)
    modifies deleteflag
    ensures Round(tree.TopNode(), Entries(tree.TopNode(), compR, codeCnt, copyR, copyCnt, s1),
                  old(deleteflag[..s1]), deleteflag[..s1], maxvtx, freq, nxtmax, totNodes)
    ensures deleteflag[s1..] == old(deleteflag[s1..])
  {
    var hroot := tree.TopNode();
    nxtmax, freq := ScanAll(hroot, totNodes, compR, codeCnt, copyR, copyCnt, deleteflag, s1, maxvtx);
  }

  /*
   * From the compressed sets back to the sets. With a code table whose
   * lengths fit the source's unsigned char (a tree less than 256 deep),
   * every compressed set reads back as the set: the decoded codes are its
   * packed vertices, the copies the others, and the round finds x in it
   * exactly when x is in the set.
   */

  /** Each entry holds the vertices of its set, and the round finds x in it exactly when the set holds x. */
  ghost predicate Mirrors(t: Tree, es: seq<Entry>, sets: seq<RRRSet>) {
    |es| == |sets| &&
    forall i :: 0 <= i < |es| ==> Bag(es[i]) == multiset(sets[i]) && forall x :: Found(t, es[i], x) == (x in sets[i])
  }

  /** One encoded set reads back as its packed and its copied vertices, and so as the set itself. */
  lemma EntryOfSet(t: Tree, C: seq<bv64>, K: seq<nat>, limit: nat, rr: RRRSet, comp: seq<bv8>, bytes: nat,
                   coded: nat, copy: seq<nat>, copy0: seq<nat>, copied: nat)
    requires CodeTable(t, C, K) && Height(t) < 256 && limit <= WordLimit
    requires SetEncoded(C, K, limit, rr, comp, bytes, coded, copy, copy0, copied)
    ensures DecodeFrom(t, comp, coded).Some? && copied <= |copy|
    ensures EntryOf(t, comp, coded, copy, copied) == Entry(Coded(K, limit, rr), Copied(K, limit, rr))
    ensures Bag(EntryOf(t, comp, coded, copy, copied)) == multiset(rr)
    ensures forall x :: Found(t, EntryOf(t, comp, coded, copy, copied), x) == (x in rr)
  {
    PackedDecodes(t, C, K, limit, rr, comp, bytes, coded, copied);
    Split(K, limit, rr);
    var e := EntryOf(t, comp, coded, copy, copied);
    assert copied > 0 ==> copy[..copied] == Copied(K, limit, rr);
    assert e == Entry(Coded(K, limit, rr), Copied(K, limit, rr));
    if t.Leaf? {
      LeafRootCopiesAll(t, C, K, limit, rr);
    }
    forall x ensures Found(t, e, x) == (x in rr) {
      assert x in rr <==> x in multiset(rr);
      assert x in e.coded <==> x in multiset(e.coded);
      assert x in e.copied <==> x in multiset(e.copied);
    }
  }

  /** The vertices of an entry that mirrors a set below n are below n. */
  lemma MirroredBelow(t: Tree, es: seq<Entry>, sets: seq<RRRSet>, n: nat)
    requires Mirrors(t, es, sets) && VerticesBelow(sets, n)
    ensures EntriesBelow(es, n)
  {
    forall i, j | 0 <= i < |es| && 0 <= j < |es[i].coded| ensures es[i].coded[j] < n {
      assert es[i].coded[j] in Bag(es[i]);
      var k :| 0 <= k < |sets[i]| && sets[i][k] == es[i].coded[j];
    }
    forall i, j | 0 <= i < |es| && 0 <= j < |es[i].copied| ensures es[i].copied[j] < n {
      assert es[i].copied[j] in Bag(es[i]);
      var k :| 0 <= k < |sets[i]| && sets[i][k] == es[i].copied[j];
    }
  }

  /** The first |sets| compressed sets decode, read back as the sets, and name only vertices below n. */
  ghost predicate ReadsBack(t: Tree, sets: seq<RRRSet>, n: nat, compR: seq<seq<bv8>>, codeCnt: seq<nat>,
                            copyR: seq<seq<nat>>, copyCnt: seq<nat>) {
    Readable(t, compR, codeCnt, copyR, copyCnt, |sets|) &&
    Mirrors(t, Entries(t, compR, codeCnt, copyR, copyCnt, |sets|), sets) &&
    EntriesBelow(Entries(t, compR, codeCnt, copyR, copyCnt, |sets|), n)
  }

  /** The columns encodeRRRSets fills read back as the sets. */
  lemma EncodedSetsRead(t: Tree, C: seq<bv64>, K: seq<nat>, limit: nat, sets: seq<RRRSet>, n: nat,
                        compR: seq<seq<bv8>>, compBytes: seq<nat>, codeCnt: seq<nat>,
                        copyR: seq<seq<nat>>, copyR0: seq<seq<nat>>, copyCnt: seq<nat>)
    requires CodeTable(t, C, K) && Height(t) < 256 && limit <= WordLimit && VerticesBelow(sets, n)
    requires SetsEncoded(C, K, limit, sets, |sets|, compR, compBytes, codeCnt, copyR, copyR0, copyCnt)
    ensures ReadsBack(t, sets, n, compR, codeCnt, copyR, copyCnt)
  {
    forall i | 0 <= i < |sets|
      ensures DecodeFrom(t, compR[i], codeCnt[i]).Some? && copyCnt[i] <= |copyR[i]|
      ensures Bag(EntryOf(t, compR[i], codeCnt[i], copyR[i], copyCnt[i])) == multiset(sets[i])
      ensures forall x :: Found(t, EntryOf(t, compR[i], codeCnt[i], copyR[i], copyCnt[i]), x) == (x in sets[i])
    {
      EntryOfSet(t, C, K, limit, sets[i], compR[i], compBytes[i], codeCnt[i], copyR[i], copyR0[i], copyCnt[i]);
    }
    MirroredBelow(t, Entries(t, compR, codeCnt, copyR, copyCnt, |sets|), sets, n);
  }

  /** The columns encodeRRRSets2 appends read back as the sets. */
  lemma AppendedSetsRead(t: Tree, C: seq<bv64>, K: seq<nat>, limit: nat, sets: seq<RRRSet>, n: nat,
                         compR: seq<seq<bv8>>, compBytes: seq<nat>, codeCnt: seq<nat>,
                         copyR: seq<seq<nat>>, copyCnt: seq<nat>)
    requires CodeTable(t, C, K) && Height(t) < 256 && limit <= WordLimit && VerticesBelow(sets, n)
    requires Appended(C, K, limit, sets, compR, compBytes, codeCnt, copyR, copyCnt)
    ensures ReadsBack(t, sets, n, compR, codeCnt, copyR, copyCnt)
  {
    forall i | 0 <= i < |sets|
      ensures DecodeFrom(t, compR[i], codeCnt[i]).Some? && copyCnt[i] <= |copyR[i]|
      ensures Bag(EntryOf(t, compR[i], codeCnt[i], copyR[i], copyCnt[i])) == multiset(sets[i])
      ensures forall x :: Found(t, EntryOf(t, compR[i], codeCnt[i], copyR[i], copyCnt[i]), x) == (x in sets[i])
    {
      EntryOfSet(t, C, K, limit, sets[i], compR[i], compBytes[i], codeCnt[i], copyR[i], [], copyCnt[i]);
    }
    MirroredBelow(t, Entries(t, compR, codeCnt, copyR, copyCnt, |sets|), sets, n);
  }

  /*
   * A round over the sets. The deletion flags mark the sets the seeds
   * cover; a round for x then marks those x covers, counts the sets x
   * newly covers (its gain) and picks the first vertex of highest count
   * over the sets still uncovered, which on duplicate-free sets is the
   * first vertex of highest gain: one step of the greedy search.
   */

  /** Set i is marked deleted exactly when the seeds cover it. */
  ghost predicate Flags(d: seq<bool>, sets: seq<RRRSet>, seeds: seq<nat>) {
    |d| == |sets| && forall i :: 0 <= i < |d| ==> d[i] == Hit(sets[i], seeds)
  }

  /** The vertices of the sets the seeds leave uncovered, with repeats. */
  ghost function LiveBag(sets: seq<RRRSet>, seeds: seq<nat>): multiset<nat> {
    if |sets| == 0 then multiset{}
    else
      LiveBag(sets[..|sets| - 1], seeds) +
      (if !Hit(sets[|sets| - 1], seeds) then multiset(sets[|sets| - 1]) else multiset{})
  }

  /** x more as a seed: a set is covered when the old seeds cover it or it holds x. */
  lemma HitMore(s: RRRSet, seeds: seq<nat>, x: nat)
    ensures Hit(s, seeds + [x]) == (Hit(s, seeds) || x in s)
  {
    if Hit(s, seeds) {
      var y :| y in seeds && y in s;
      assert y in seeds + [x];
    }
    if x in s {
      assert x in seeds + [x];
    }
    if Hit(s, seeds + [x]) {
      var y :| y in seeds + [x] && y in s;
      assert y in seeds || y == x;
    }
  }

  lemma {:induction false} RoundOnSets(t: Tree, es: seq<Entry>, sets: seq<RRRSet>, seeds: seq<nat>,
                                       d0: seq<bool>, d: seq<bool>, x: nat)
    requires Mirrors(t, es, sets) && Flags(d0, sets, seeds) && |d| == |es|
    requires forall j :: 0 <= j < |es| ==> d[j] == (d0[j] || Found(t, es[j], x))
    ensures Flags(d, sets, seeds + [x])
    ensures Hits(t, es, d0, x) == Gain(sets, seeds, x)
    ensures Tally(t, es, d0, x) == LiveBag(sets, seeds + [x])
    ensures Uncovered(sets, seeds) == Uncovered(sets, seeds + [x]) + Gain(sets, seeds, x)
  {
    forall j | 0 <= j < |d| ensures d[j] == Hit(sets[j], seeds + [x]) {
      HitMore(sets[j], seeds, x);
    }
    if |es| > 0 {
      var m := |es| - 1;
      assert Mirrors(t, es[..m], sets[..m]);
      RoundOnSets(t, es[..m], sets[..m], seeds, d0[..m], d[..m], x);
      HitMore(sets[m], seeds, x);
    }
  }

  /** On duplicate-free sets a vertex occurs in the uncovered sets as often as it has gain. */
  lemma {:induction false} LiveBagIsGain(sets: seq<RRRSet>, seeds: seq<nat>, v: nat)
    requires forall i :: 0 <= i < |sets| ==> StrictlySorted(sets[i])
    ensures LiveBag(sets, seeds)[v] == Gain(sets, seeds, v)
  {
    if |sets| > 0 {
      var m := |sets| - 1;
      LiveBagIsGain(sets[..m], seeds, v);
      SortedOnce(sets[m], v);
    }
  }

  /**
   * The first vertex of highest count over the uncovered sets is a greedy
   * choice when the sets are duplicate-free; with nothing counted it is 0,
   * and then no vertex has any gain.
   */
  lemma FirstMaxIsGreedy(sets: seq<RRRSet>, seeds: seq<nat>, m: nat, n: nat)
    requires FirstMax(Counter(LiveBag(sets, seeds), n), m)
    requires forall i :: 0 <= i < |sets| ==> StrictlySorted(sets[i])
    ensures GreedyChoice(sets, seeds, m, n)
  {
    var g := Counter(LiveBag(sets, seeds), n);
    forall w | 0 <= w < n ensures Gain(sets, seeds, w) <= Gain(sets, seeds, m) {
      LiveBagIsGain(sets, seeds, w);
      LiveBagIsGain(sets, seeds, m);
      if m < n {
        assert g[w] <= g[m];
      }
    }
  }

  /** The first seed, the last vertex of highest count over all sets, is a greedy choice on duplicate-free sets. */
  lemma FirstSeedIsGreedy(sets: seq<RRRSet>, m: nat, n: nat, r: nat)
    requires IsMaxVertex(CountsOf(sets, m), 0, r) && n <= m
    requires forall i :: 0 <= i < |sets| ==> StrictlySorted(sets[i])
    ensures GreedyChoice(sets, [], r, n)
  {
    var f := CountsOf(sets, m);
    forall w | 0 <= w < n ensures Gain(sets, [], w) <= Gain(sets, [], r) {
      forall i | 0 <= i < |sets| ensures !Hit(sets[i], []) { }
      GainOfLive(sets, [], w);
      GainOfLive(sets, [], r);
      OccurrencesOfSorted(sets, w);
      OccurrencesOfSorted(sets, r);
      if !forall v :: 0 <= v < |f| ==> f[v] == 0 {
        assert f[w] <= f[r];
      } else {
        assert f[w] == 0;
      }
    }
  }

  /** Before the first round no set is covered and none is deleted. */
  lemma NothingCovered(sets: seq<RRRSet>, d: seq<bool>)
    requires |d| == |sets| && forall i :: 0 <= i < |d| ==> !d[i]
    ensures Flags(d, sets, []) && Uncovered(sets, []) == |sets|
  {
    forall i | 0 <= i < |sets| ensures !Hit(sets[i], []) && Live([])(sets[i]) { }
    CountWhereAll(sets, Live([]));
  }

  /**
   * Seed j is the first vertex of highest count over the sets the seeds
   * before it leave uncovered.
   */
  ghost predicate NextSeed(sets: seq<RRRSet>, seeds: seq<nat>, n: nat, j: nat)
    requires j < |seeds|
  {
    FirstMax(Counter(LiveBag(sets, seeds[..j]), n), seeds[j])
  }

  /**
   * Every seed after the first is a greedy choice on duplicate-free sets:
   * the first vertex of highest count over the sets the seeds before it
   * leave uncovered.
   */
  lemma LaterSeedsGreedy(sets: seq<RRRSet>, seeds: seq<nat>, n: nat)
    requires forall j :: 0 < j < |seeds| ==> NextSeed(sets, seeds, n, j)
    requires forall i :: 0 <= i < |sets| ==> StrictlySorted(sets[i])
    ensures forall j :: 0 < j < |seeds| ==> GreedyChoice(sets, seeds[..j], seeds[j], n)
  {
    forall j | 0 < j < |seeds| ensures GreedyChoice(sets, seeds[..j], seeds[j], n) {
      assert NextSeed(sets, seeds, n, j);
      FirstMaxIsGreedy(sets, seeds[..j], seeds[j], n);
    }
  }

  /**
   * The seed loop's state after the seeds S2: the deleted sets are those
   * S2 covers, uncovered counts the others, the next seed is the first
   * vertex of highest count over them (the first seed while S2 is empty),
   * and each seed after the first was chosen the same way.
   */
  ghost predicate Seeding(sets: seq<RRRSet>, n: nat, first: nat, S2: seq<nat>, d: seq<bool>, uncovered: nat, maxvtx: nat) {
    Flags(d, sets, S2) && uncovered == Uncovered(sets, S2) &&
    (|S2| == 0 ==> maxvtx == first) &&
    (|S2| > 0 ==> S2[0] == first && FirstMax(Counter(LiveBag(sets, S2), n), maxvtx)) &&
    forall j :: 0 < j < |S2| ==> NextSeed(sets, S2, n, j)
  }

  /** A round for the next seed moves the loop's state on by that seed. */
  lemma SeedRound(t: Tree, es: seq<Entry>, sets: seq<RRRSet>, n: nat, first: nat, S2: seq<nat>,
                  d0: seq<bool>, d: seq<bool>, uncovered: nat, maxvtx: nat, freq: nat, nxtmax: nat)
    requires Mirrors(t, es, sets) && Seeding(sets, n, first, S2, d0, uncovered, maxvtx)
    requires Round(t, es, d0, d, maxvtx, freq, nxtmax, n)
    ensures freq <= uncovered && Seeding(sets, n, first, S2 + [maxvtx], d, uncovered - freq, nxtmax)
  {
    RoundOnSets(t, es, sets, S2, d0, d, maxvtx);
    var S2' := S2 + [maxvtx];
    assert S2'[..|S2|] == S2;
    forall j | 0 < j < |S2'| ensures NextSeed(sets, S2', n, j) {
      if j < |S2| {
        assert S2'[..j] == S2[..j] && S2'[j] == S2[j];
        assert NextSeed(sets, S2, n, j);
      } else {
        assert S2'[..j] == S2 && S2'[j] == maxvtx;
      }
    }
  }

  /** The tree is built and the compressed columns read back with it as the sets. */
  ghost predicate Searchable(tree: HuffmanTree, sets: seq<RRRSet>, n: nat, compR: seq<seq<bv8>>, codeCnt: seq<nat>,
                             copyR: seq<seq<nat>>, copyCnt: seq<nat>)
    reads tree, tree.pool, tree.qq
  {
    tree.Valid() && 0 < tree.nNodes && ReadsBack(tree.TopNode(), sets, n, compR, codeCnt, copyR, copyCnt)
  }

  /** The body of the seed loop: the seed is added and its round run. */
  method SeedStep(tree: HuffmanTree, n: nat, ghost sets: seq<RRRSet>, compR: seq<seq<bv8>>, compBytes: seq<nat>,
                  codeCnt: seq<nat>, copyR: seq<seq<nat>>, copyCnt: seq<nat>, deleteflag: array<bool>,
                  ghost first: nat, S2: seq<nat>, uncovered: nat, maxvtx: nat)
    returns (S2': seq<nat>, uncovered': nat, nxtmax: nat)
    requires Searchable(tree, sets, n, compR, codeCnt, copyR, copyCnt) && deleteflag.Length == |sets|
    requires deleteflag as object != tree.pool && deleteflag as object != tree.qq
    requires Seeding(sets, n, first, S2, deleteflag[..], uncovered, maxvtx)
    modifies deleteflag
    ensures S2' == S2 + [maxvtx] && Seeding(sets, n, first, S2', deleteflag[..], uncovered', nxtmax)
  {
    ghost var t := tree.TopNode();
    ghost var es := Entries(t, compR, codeCnt, copyR, copyCnt, |sets|);
    ghost var d0 := deleteflag[..];
    assert deleteflag[..|sets|] == d0;
    S2' := S2 + [maxvtx];
    var freq;
    nxtmax, freq := DecompAndFind(tree, n, compR, compBytes, codeCnt, copyR, copyCnt, deleteflag, deleteflag.Length, maxvtx);
    assert deleteflag[..|sets|] == deleteflag[..];
    SeedRound(t, es, sets, n, first, S2, d0, deleteflag[..], uncovered, maxvtx, freq, nxtmax);
    uncovered' := uncovered - freq;
  }

  /**
   * What a search leaves behind: at most k seeds, and fewer only once
   * every set is covered; covered counts the sets the seeds cover; and
   * each seed after the first is the first vertex of highest count over
   * the sets the seeds before it leave uncovered.
   */
  ghost predicate Searched(sets: seq<RRRSet>, n: nat, k: nat, covered: nat, seeds: seq<nat>) {
    |seeds| <= k && (|seeds| == k || covered == |sets|) &&
    covered + Uncovered(sets, seeds) == |sets| &&
    forall j :: 0 < j < |seeds| ==> NextSeed(sets, seeds, n, j)
  }

  /**
   * The seed loop of both HuffmanFind overloads: all sets start live; while
   * fewer than k seeds are chosen and some set is uncovered, the current
   * seed is added, a round over the compressed sets deletes the sets it
   * covers and names the next seed, and uncovered drops by the number of
   * sets deleted (which never exceeds it, so the unsigned subtraction
   * never wraps). The covered count stands for the coverage fraction the
   * source returns.
   */
  method SeedLoop(tree: HuffmanTree, n: nat, k: nat, ghost sets: seq<RRRSet>, s1: nat, compR: seq<seq<bv8>>,
                  compBytes: seq<nat>, codeCnt: seq<nat>, copyR: seq<seq<nat>>, copyCnt: seq<nat>, first: nat)
    returns (covered: nat, S2: seq<nat>)
    requires tree.Valid() && 0 < tree.nNodes && s1 == |sets|
    requires ReadsBack(tree.TopNode(), sets, n, compR, codeCnt, copyR, copyCnt)
    ensures Searched(sets, n, k, covered, S2) && (|S2| > 0 ==> S2[0] == first)
  {
    var deleteflag := new bool[s1](_ => false);
    NothingCovered(sets, deleteflag[..]);
    var uncovered: nat := s1;
    var maxvtx := first;
    S2 := [];
    while |S2| < k && uncovered != 0
      invariant |S2| <= k && Seeding(sets, n, first, S2, deleteflag[..], uncovered, maxvtx)
      invariant Searchable(tree, sets, n, compR, codeCnt, copyR, copyCnt)
      decreases k - |S2|
    {
      S2, uncovered, maxvtx := SeedStep(tree, n, sets, compR, compBytes, codeCnt, copyR, copyCnt, deleteflag,
                                        first, S2, uncovered, maxvtx);
    }
    covered := s1 - uncovered;
  }

  /**
   * The compression of the first overload: five columns of one slot per
   * set, filled by encodeRRRSets; a copy slot it leaves unassigned reads
   * as the empty list.
   */
  method CompressAll(tree: HuffmanTree, R: seq<RRRSet>)
    returns (compR: seq<seq<bv8>>, compBytes: seq<nat>, codeCnt: seq<nat>, copyR: seq<seq<nat>>, copyCnt: seq<nat>)
    requires tree.code.Length == tree.cout.Length && VerticesBelow(R, tree.cout.Length)
    ensures SetsEncoded(tree.code[..], tree.cout[..], ShortLimit, R, |R|, compR, compBytes, codeCnt,
                        copyR, seq(|R|, _ => []), copyCnt)
  {
    var cr := new seq<bv8>[|R|](_ => []);
    var cb := new nat[|R|](_ => 0);
    var cc := new nat[|R|](_ => 0);
    var cp := new seq<nat>[|R|](_ => []);
    var cn := new nat[|R|](_ => 0);
    assert cp[..] == seq(|R|, _ => []);
    EncodeRRRSets(tree, R, cr, cb, cc, cp, cn);
    compR, compBytes, codeCnt, copyR, copyCnt := cr[..], cb[..], cc[..], cp[..], cn[..];
  }

  /**
   * The tree initByRRRSets builds from sets holding fewer than 2^64
   * entries in all (total_rrr_size is a size_t) is less than 128 deep, so
   * every code length fits its unsigned char.
   */
  lemma BuiltShallow(t: Tree, sets: seq<RRRSet>, n: nat)
    requires TreeOfSets(t, sets, 2 * n) && FibHeavy(t) && VerticesBelow(sets, n) && EntryCount(sets) < SizeLimit
    ensures Height(t) < 128
  {
    assert VerticesBelow(sets, 2 * n);
    TotalIsEntries(sets, 2 * n);
    ShallowRoot(t);
  }

  /**
   * The set-up of the first overload: a new tree over the n vertices built
   * from the sets, the most frequent vertex, and the sets compressed with
   * encodeRR, which read back as the sets.
   */
  method Prepare(n: nat, R: seq<RRRSet>)
    returns (tree: HuffmanTree, maxvtx: nat, compR: seq<seq<bv8>>, compBytes: seq<nat>, codeCnt: seq<nat>,
             copyR: seq<seq<nat>>, copyCnt: seq<nat>)
    requires VerticesBelow(R, n) && SomeVertex(R) && EntryCount(R) < SizeLimit
    ensures tree.Valid() && 0 < tree.nNodes
    ensures ReadsBack(tree.TopNode(), R, n, compR, codeCnt, copyR, copyCnt)
    ensures IsMaxVertex(CountsOf(R, 2 * n), 0, maxvtx)
  {
    tree := new HuffmanTree(n);
    maxvtx := tree.InitByRRRSets(R);
    ghost var t := tree.TopNode();
    BuiltShallow(t, R, n);
    compR, compBytes, codeCnt, copyR, copyCnt := CompressAll(tree, R);
    assert tree.TopNode() == t;
    EncodedSetsRead(t, tree.code[..], tree.cout[..], ShortLimit, R, n,
                    compR, compBytes, codeCnt, copyR, seq(|R|, _ => []), copyCnt);
  }

  /**
   * HuffmanFind, the first overload: a new tree over the n vertices is
   * built from the sets (its pointer argument is overwritten before use),
   * the sets are compressed with encodeRR into five columns of one entry
   * per set, and the seed loop runs from the most frequent vertex. On
   * duplicate-free sets every seed is a greedy choice.
   */
  method HuffmanFind(n: nat, k: nat, R: seq<RRRSet>) returns (covered: nat, S2: seq<nat>)
    requires VerticesBelow(R, n) && SomeVertex(R) && EntryCount(R) < SizeLimit
    ensures Searched(R, n, k, covered, S2)
    ensures |S2| > 0 ==> IsMaxVertex(CountsOf(R, 2 * n), 0, S2[0])
    ensures (forall i :: 0 <= i < |R| ==> StrictlySorted(R[i])) ==>
      forall j :: 0 <= j < |S2| ==> GreedyChoice(R, S2[..j], S2[j], n)
  {
    var tree, maxvtx, compR, compBytes, codeCnt, copyR, copyCnt := Prepare(n, R);
    covered, S2 := SeedLoop(tree, n, k, R, |R|, compR, compBytes, codeCnt, copyR, copyCnt, maxvtx);
    if forall i :: 0 <= i < |R| ==> StrictlySorted(R[i]) {
      LaterSeedsGreedy(R, S2, n);
      if |S2| > 0 && IsMaxVertex(CountsOf(R, 2 * n), 0, S2[0]) {
        assert S2[..0] == [];
        FirstSeedIsGreedy(R, 2 * n, n, S2[0]);
      }
    }
  }

  /**
   * A tree built earlier and handed to the second overload: built over n
   * vertices, its heap down to the root, its code table from that root,
   * and less than 256 deep.
   */
  ghost predicate Ready(tree: HuffmanTree, n: nat)
    reads tree, tree.pool, tree.qq, tree.code, tree.cout
  {
    tree.Valid() && tree.stateNum == n && 0 < n &&
    tree.qend == 2 && 0 < tree.nNodes && tree.qq[1] == tree.nNodes - 1 &&
    CodeTable(tree.Root(), tree.code[..], tree.cout[..]) && Height(tree.Root()) < 256
  }

  /** The vertex of highest count over the sets is one of their vertices, or 0. */
  lemma MaxVertexBelow(sets: seq<RRRSet>, n: nat, r: nat)
    requires VerticesBelow(sets, n) && SomeVertex(sets) && IsMaxVertex(CountsOf(sets, 2 * n), 0, r)
    ensures r < n
  {
    var k :| 0 <= k < |sets| && |sets[k]| > 0;
    assert sets[k][0] < n;
    if r >= n && r < 2 * n {
      OccurrencesBeyond(sets, n, r);
    }
  }

  /**
   * The tree of the second overload: with create_flag 1 a new tree over the
   * n vertices, built from the sets by initByRRRSets2 (which also counts
   * their occurrences into globalcnt); otherwise the given tree.
   */
  method Tree2(huffmanTree: HuffmanTree?, n: nat, sets: seq<RRRSet>, createFlag: int, globalcnt: array<int>)
    returns (tree: HuffmanTree, first: nat)
    requires VerticesBelow(sets, n) && globalcnt.Length == n
    requires createFlag == 1 ==> SomeVertex(sets) && EntryCount(sets) < SizeLimit
    requires createFlag != 1 ==> huffmanTree != null && Ready(huffmanTree, n)
    modifies globalcnt
    ensures Ready(tree, n) && first < n
    ensures createFlag == 1 ==> fresh(tree) && fresh(tree.pool) && fresh(tree.qq) && fresh(tree.code) && fresh(tree.cout)
    ensures createFlag == 1 ==> IsMaxVertex(CountsOf(sets, 2 * n), 0, tree.maxvtx)
    ensures createFlag != 1 ==> tree == huffmanTree
  {
    first := 0;
    if createFlag == 1 {
      tree := new HuffmanTree(n);
      first := tree.InitByRRRSets2(sets, globalcnt);
      MaxVertexBelow(sets, n, first);
      BuiltShallow(tree.TopNode(), sets, n);
    } else {
      tree := huffmanTree;
    }
  }

  /**
   * The compression of the second overload: encodeRRRSets2 from offset 0
   * into fresh columns, which clears the sets; the compressed sets read
   * back as the sets.
   */
  method Compress2(tree: HuffmanTree, n: nat, R: array<RRRSet>, globalcnt: array<int>, first: nat)
    returns (compR: seq<seq<bv8>>, compBytes: seq<nat>, codeCnt: seq<nat>, copyR: seq<seq<nat>>, copyCnt: seq<nat>)
    requires Ready(tree, n) && VerticesBelow(R[..], n) && globalcnt.Length == n && first < n
    requires R as object != tree.code && R as object != tree.cout && R as object != globalcnt
    requires globalcnt as object != tree.code && globalcnt as object != tree.cout
    modifies R, globalcnt
    ensures forall i :: 0 <= i < R.Length ==> R[i] == []
    ensures Ready(tree, n) && ReadsBack(tree.TopNode(), old(R[..]), n, compR, codeCnt, copyR, copyCnt)
  {
    ghost var t := tree.Root();
    compR, compBytes, codeCnt, copyR, copyCnt := EncodeFresh(tree, R, globalcnt, first);
    AppendedSetsRead(t, tree.code[..], tree.cout[..], WordLimit, old(R[..]), n, compR, compBytes, codeCnt, copyR, copyCnt);
  }

  /** encodeRRRSets2 from offset 0 into empty columns: every set encoded in order. */
  method EncodeFresh(tree: HuffmanTree, R: array<RRRSet>, globalcnt: array<int>, first: nat)
    returns (compR: seq<seq<bv8>>, compBytes: seq<nat>, codeCnt: seq<nat>, copyR: seq<seq<nat>>, copyCnt: seq<nat>)
    requires tree.code.Length == tree.cout.Length && first < globalcnt.Length
    requires VerticesBelow(R[..], tree.cout.Length) && VerticesBelow(R[..], globalcnt.Length)
    requires R as object != tree.code && R as object != tree.cout && R as object != globalcnt
    requires globalcnt as object != tree.code && globalcnt as object != tree.cout
    modifies R, globalcnt
    ensures forall i :: 0 <= i < R.Length ==> R[i] == []
    ensures Appended(tree.code[..], tree.cout[..], WordLimit, old(R[..]), compR, compBytes, codeCnt, copyR, copyCnt)
  {
    ghost var sets := R[..];
    assert R[0..] == sets;
    var tracked;
    compR, compBytes, codeCnt, copyR, copyCnt, tracked := EncodeRRRSets2(tree, R, 0, [], [], [], [], [], globalcnt, first);
    assert sets[..|sets|] == sets && compR[0..] == compR && compBytes[0..] == compBytes && codeCnt[0..] == codeCnt;
    assert copyR[0..] == copyR && copyCnt[0..] == copyCnt;
  }

  /**
   * The set-up of the second overload: the tree, the sets compressed with
   * encodeRRRSets2 (which clears them), and the first seed, the tree's
   * stored most frequent vertex; the running maximum encodeRRRSets2
   * tracks is not used.
   */
  method Prepare2(huffmanTree: HuffmanTree?, n: nat, R: array<RRRSet>, createFlag: int)
    returns (tree: HuffmanTree, maxvtx: nat, compR: seq<seq<bv8>>, compBytes: seq<nat>, codeCnt: seq<nat>,
             copyR: seq<seq<nat>>, copyCnt: seq<nat>)
    requires VerticesBelow(R[..], n)
    requires createFlag == 1 ==> SomeVertex(R[..]) && EntryCount(R[..]) < SizeLimit
    requires createFlag != 1 ==> huffmanTree != null && Ready(huffmanTree, n)
    requires createFlag != 1 ==> R as object != huffmanTree.pool && R as object != huffmanTree.qq
    requires createFlag != 1 ==> R as object != huffmanTree.code && R as object != huffmanTree.cout
    modifies R
    ensures forall i :: 0 <= i < R.Length ==> R[i] == []
    ensures tree.Valid() && 0 < tree.nNodes
    ensures ReadsBack(tree.TopNode(), old(R[..]), n, compR, codeCnt, copyR, copyCnt)
    ensures createFlag == 1 ==> IsMaxVertex(CountsOf(old(R[..]), 2 * n), 0, maxvtx)
    ensures createFlag != 1 ==> tree == huffmanTree && maxvtx == huffmanTree.maxvtx
  {
    var globalcnt := new int[n](_ => 0);
    var first;
    tree, first := Tree2(huffmanTree, n, R[..], createFlag, globalcnt);
    compR, compBytes, codeCnt, copyR, copyCnt := Compress2(tree, n, R, globalcnt, first);
    maxvtx := tree.maxvtx;
  }

  /**
   * HuffmanFind, the second overload: the set-up of Prepare2, then the
   * seed loop over the vector columns (DecompAndFind2) from the tree's
   * stored most frequent vertex. The sets are left cleared. On
   * duplicate-free sets every seed after the first is a greedy choice, and
   * the first one too when the tree was built here.
   */
  method HuffmanFind2(huffmanTree: HuffmanTree?, n: nat, k: nat, R: array<RRRSet>, createFlag: int)
    returns (covered: nat, S2: seq<nat>)
    requires VerticesBelow(R[..], n)
    requires createFlag == 1 ==> SomeVertex(R[..]) && EntryCount(R[..]) < SizeLimit
    requires createFlag != 1 ==> huffmanTree != null && Ready(huffmanTree, n)
    requires createFlag != 1 ==> R as object != huffmanTree.pool && R as object != huffmanTree.qq
    requires createFlag != 1 ==> R as object != huffmanTree.code && R as object != huffmanTree.cout
    modifies R
    ensures forall i :: 0 <= i < R.Length ==> R[i] == []
    ensures Searched(old(R[..]), n, k, covered, S2)
    ensures createFlag == 1 && |S2| > 0 ==> IsMaxVertex(CountsOf(old(R[..]), 2 * n), 0, S2[0])
    ensures createFlag != 1 && |S2| > 0 ==> S2[0] == huffmanTree.maxvtx
    ensures (forall i :: 0 <= i < R.Length ==> StrictlySorted(old(R[i]))) ==>
      forall j :: 0 < j < |S2| ==> GreedyChoice(old(R[..]), S2[..j], S2[j], n)
    ensures (forall i :: 0 <= i < R.Length ==> StrictlySorted(old(R[i]))) && createFlag == 1 ==>
      forall j :: 0 <= j < |S2| ==> GreedyChoice(old(R[..]), S2[..j], S2[j], n)
  {
    ghost var sets := R[..];
    var tree, maxvtx, compR, compBytes, codeCnt, copyR, copyCnt := Prepare2(huffmanTree, n, R, createFlag);
    covered, S2 := SeedLoop(tree, n, k, sets, R.Length, compR, compBytes, codeCnt, copyR, copyCnt, maxvtx);
    if forall i :: 0 <= i < |sets| ==> StrictlySorted(sets[i]) {
      LaterSeedsGreedy(sets, S2, n);
      if |S2| > 0 && IsMaxVertex(CountsOf(sets, 2 * n), 0, S2[0]) {
        assert S2[..0] == [];
        FirstSeedIsGreedy(sets, 2 * n, n, S2[0]);
      }
    }
  }
}
