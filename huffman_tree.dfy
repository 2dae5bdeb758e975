/*
 * The Huffman tree object: a pool of nodes, a binary min-heap of pool
 * indices keyed by node frequency, and the code table (one 64-bit word and
 * one length per vertex) that the tree walk fills in.
 *
 * The heap is 1-indexed: qq[1 .. qend) holds its entries, slot 0 is unused,
 * and the parent of slot k is slot k / 2.
 */
module Huffman {
  import opened BigEndian
  import opened CodeTree
  import opened HuffmanPool
  import opened CodeWord
  import opened Counting
  import opened Frequencies
  import opened TreeDepth

  /** Weight w is no heavier than the children of slot j that lie below end. */
  ghost predicate Over(p: seq<Node>, q: seq<nat>, end: nat, w: nat, j: nat)
    requires end <= |q|
  {
    (2 * j < end ==> w <= Key(p, q[2 * j])) &&
    (2 * j + 1 < end ==> w <= Key(p, q[2 * j + 1]))
  }

  /** Slot j is no heavier than its children 2j and 2j + 1 that lie below end. */
  ghost predicate Below(p: seq<Node>, q: seq<nat>, end: nat, j: nat)
    requires end <= |q| && j < end
  {
    Over(p, q, end, Key(p, q[j]), j)
  }

  /** Slot j is no heavier than its children below end other than c. */
  ghost predicate BelowBut(p: seq<Node>, q: seq<nat>, end: nat, j: nat, c: nat)
    requires end <= |q| && j < end
  {
    (2 * j < end && 2 * j != c ==> Key(p, q[j]) <= Key(p, q[2 * j])) &&
    (2 * j + 1 < end && 2 * j + 1 != c ==> Key(p, q[j]) <= Key(p, q[2 * j + 1]))
  }

  /** Parent never heavier than child, over the heap slots [1, end). */
  ghost predicate HeapOrdered(p: seq<Node>, q: seq<nat>, end: nat) {
    end <= |q| && forall j :: 1 <= j < end ==> Below(p, q, end, j)
  }

  /** Seen through the slots in use: the first heap entry is at most as heavy as every entry. */
  lemma QueueMin(p: seq<Node>, h: seq<nat>, end: nat, n: nat)
    requires HeapOrdered(p, h, end) && 2 <= end && n <= |p|
    requires forall k :: 1 <= k < end ==> h[k] < n
    ensures forall y :: y in multiset(h[1..end]) ==> Key(p[..n], h[1]) <= Key(p[..n], y)
  {
    var q := h[1..end];
    forall y | y in multiset(q) ensures Key(p[..n], h[1]) <= Key(p[..n], y) {
      var k :| 0 <= k < |q| && q[k] == y;
      assert y == h[k + 1] && h[1] < n && y < n;
      HeapMin(p, h, end, k + 1);
    }
  }

  /** Two removals of a lightest entry: the first weighs at most the second, and the second at most every entry left. */
  lemma TwoLightest(p: seq<Node>, q0: seq<nat>, q1: seq<nat>, q2: seq<nat>, a: nat, b: nat)
    requires multiset(q0) == multiset(q1) + multiset{a} && multiset(q1) == multiset(q2) + multiset{b}
    requires forall y :: y in multiset(q0) ==> Key(p, a) <= Key(p, y)
    requires forall y :: y in multiset(q1) ==> Key(p, b) <= Key(p, y)
    ensures multiset(q0) == multiset(q2) + multiset{a, b}
    ensures Key(p, a) <= Key(p, b)
    ensures forall k :: 0 <= k < |q2| ==> Key(p, b) <= Key(p, q2[k])
  {
    assert b in multiset(q1) && b in multiset(q0);
    forall k | 0 <= k < |q2| ensures Key(p, b) <= Key(p, q2[k]) {
      assert q2[k] in multiset(q2) && q2[k] in multiset(q1);
    }
  }

  /** The heap after a merge round: the two lightest entries replaced by the new slot x, every other entry at least as heavy as b. */
  lemma MergedQueue(p: seq<Node>, q0: seq<nat>, q1: seq<nat>, q3: seq<nat>, a: nat, b: nat, x: nat)
    requires multiset(q0) == multiset(q1) + multiset{a, b} && multiset(q3) == multiset(q1) + multiset{x}
    requires forall k :: 0 <= k < |q1| ==> Key(p, b) <= Key(p, q1[k])
    ensures multiset(q3) + multiset{a, b} == multiset(q0) + multiset{x}
    ensures forall k :: 0 <= k < |q3| && q3[k] != x ==> Key(p, b) <= Key(p, q3[k])
  {
    forall k | 0 <= k < |q3| && q3[k] != x ensures Key(p, b) <= Key(p, q3[k]) {
      assert q3[k] in multiset(q3);
      assert q3[k] in multiset(q1);
      var i :| 0 <= i < |q1| && q1[i] == q3[k];
    }
  }

  /**
   * One merge round, from slots p and heap entries q to p' and q': a is a
   * lightest entry and b a lightest of the rest, both taken out of the heap,
   * and the new slot x == |p| over them, weighing their sum, goes in; every
   * entry left weighs at least b.
   */
  ghost predicate Merged(p: seq<Node>, p': seq<Node>, q: seq<nat>, q': seq<nat>, a: nat, b: nat, x: nat) {
    x == |p| && a < x && b < x &&
    multiset(q') + multiset{a, b} == multiset(q) + multiset{x} &&
    Key(p, a) <= Key(p, b) &&
    (forall k :: 0 <= k < |q'| && q'[k] != x ==> Key(p, b) <= Key(p, q'[k])) &&
    p' == p + [InnerNode(a, b, Key(p, a) + Key(p, b))]
  }

  /** A merge round keeps the forest and its depth bound; when it leaves one entry, that is the slot just made. */
  lemma MergeKept(p: seq<Node>, p': seq<Node>, q: seq<nat>, q': seq<nat>, a: nat, b: nat, x: nat, f: seq<int>)
    requires Built(p) && InPool(p, q) && ForestState(p, q, f) && DepthState(p, q)
    requires Merged(p, p', q, q', a, b, x) && Built(p') && InPool(p', q')
    ensures ForestState(p', q', f) && DepthState(p', q') && (|q'| == 1 ==> q'[0] == x)
  {
    MergeAdded(p, p', q, q', a, b, x, f);
    MergeDeepens(p, p', q, q', a, b, x);
    if |q'| == 1 {
      LastRoot(q, q', a, b, x);
    }
  }

  /** When a merge round leaves one entry, it is the slot just made. */
  lemma LastRoot(q0: seq<nat>, q3: seq<nat>, a: nat, b: nat, x: nat)
    requires |q3| == 1 && a != x && b != x
    requires multiset(q3) + multiset{a, b} == multiset(q0) + multiset{x}
    ensures q3[0] == x
  {
    assert x in multiset(q3) + multiset{a, b};
    assert x in multiset(q3);
  }

  /** The heap's first slot is a lightest entry. */
  lemma {:induction false} HeapMin(p: seq<Node>, q: seq<nat>, end: nat, k: nat)
    requires HeapOrdered(p, q, end) && 1 <= k < end
    ensures Key(p, q[1]) <= Key(p, q[k])
    decreases k
  {
    if k > 1 {
      assert Below(p, q, end, k / 2);
      HeapMin(p, q, end, k / 2);
    }
  }

  /** Filling a pool slot that no heap entry names keeps the heap ordered. */
  lemma HeapUpdate(p: seq<Node>, x: nat, y: Node, q: seq<nat>, end: nat)
    requires HeapOrdered(p, q, end) && x < |p|
    requires forall k :: 1 <= k < end ==> q[k] < x
    ensures HeapOrdered(p[x := y], q, end)
  {
    var p' := p[x := y];
    forall j | 1 <= j < end
      ensures Below(p', q, end, j)
    {
      assert Below(p, q, end, j);
    }
  }

  /**
   * Sifting up: slot i is the hole that n will fill. Every slot other than
   * the hole's parent is no heavier than its children, the parent is no
   * heavier than the hole's sibling, and neither n nor the hole's parent
   * is heavier than the hole's children.
   */
  ghost predicate UpHole(p: seq<Node>, m: nat, q: seq<nat>, end: nat, i: nat, n: nat) {
    end <= |q| && 1 <= i < end && n < m &&
    (forall k :: 1 <= k < end && k != i ==> q[k] < m) &&
    (forall j :: 1 <= j < end && j != i / 2 ==> Below(p, q, end, j)) &&
    (i >= 2 ==> BelowBut(p, q, end, i / 2, i) && Over(p, q, end, Key(p, q[i / 2]), i)) &&
    Over(p, q, end, Key(p, n), i)
  }

  lemma UpHoleInit(p: seq<Node>, m: nat, q: seq<nat>, end: nat, n: nat)
    requires 2 <= end <= |q| && n < m
    requires forall k :: 1 <= k < end - 1 ==> q[k] < m
    requires HeapOrdered(p, q, end - 1)
    ensures UpHole(p, m, q, end, end - 1, n)
  {
    var i := end - 1;
    if i >= 2 {
      assert Below(p, q, end - 1, i / 2);
    }
    forall j | 1 <= j < end && j != i / 2
      ensures Below(p, q, end, j)
    {
      if j < end - 1 {
        assert Below(p, q, end - 1, j);
      }
    }
  }

  lemma UpHoleStep(p: seq<Node>, m: nat, q: seq<nat>, q': seq<nat>, end: nat, i: nat, n: nat)
    requires UpHole(p, m, q, end, i, n) && 2 <= i < end
    requires Key(p, n) < Key(p, q[i / 2]) && q' == q[i := q[i / 2]]
    ensures UpHole(p, m, q', end, i / 2, n)
  {
    var j := i / 2;
    assert 2 * j == i || 2 * j + 1 == i;
    forall x | 1 <= x < end && x != j / 2
      ensures Below(p, q', end, x)
    {
      if x != i && x != j {
        assert Below(p, q, end, x);
      }
    }
    if j >= 2 {
      assert Below(p, q, end, j / 2);
    }
  }

  lemma UpHoleDone(p: seq<Node>, m: nat, q: seq<nat>, q': seq<nat>, end: nat, i: nat, n: nat)
    requires UpHole(p, m, q, end, i, n)
    requires i == 1 || Key(p, q[i / 2]) <= Key(p, n)
    requires q' == q[i := n]
    ensures HeapOrdered(p, q', end) && forall k :: 1 <= k < end ==> q'[k] < m
    ensures q'[1..end] == q[1..end][i - 1 := n]
  {
    forall x | 1 <= x < end
      ensures Below(p, q', end, x)
    {
      if x != i && x != i / 2 {
        assert Below(p, q, end, x);
      }
    }
  }

  /**
   * Sifting down: slot i holds the entry still sinking. Every other slot
   * is no heavier than its children, and i's parent is no heavier than
   * i's children.
   */
  ghost predicate DownHole(p: seq<Node>, m: nat, q: seq<nat>, end: nat, i: nat) {
    end <= |q| && 1 <= i &&
    (forall k :: 1 <= k < end ==> q[k] < m) &&
    (forall j :: 1 <= j < end && j != i ==> Below(p, q, end, j)) &&
    (i >= 2 && 2 * i < end ==> Key(p, q[i / 2]) <= Key(p, q[2 * i])) &&
    (i >= 2 && 2 * i + 1 < end ==> Key(p, q[i / 2]) <= Key(p, q[2 * i + 1]))
  }

  lemma DownHoleInit(p: seq<Node>, m: nat, q: seq<nat>, q': seq<nat>, end: nat)
    requires 1 <= end < |q| && HeapOrdered(p, q, end + 1)
    requires forall k :: 1 <= k < end + 1 ==> q[k] < m
    requires q' == q[1 := q[end]]
    ensures DownHole(p, m, q', end, 1)
  {
    forall j | 1 < j < end
      ensures Below(p, q', end, j)
    {
      assert Below(p, q, end + 1, j);
    }
  }

  lemma DownHoleStep(p: seq<Node>, m: nat, q: seq<nat>, q': seq<nat>, end: nat, i: nat, l: nat)
    requires DownHole(p, m, q, end, i) && l < end && (l == 2 * i || l == 2 * i + 1)
    requires l == 2 * i + 1 ==> Key(p, q[l]) < Key(p, q[2 * i])
    requires l == 2 * i && 2 * i + 1 < end ==> Key(p, q[l]) <= Key(p, q[2 * i + 1])
    requires Key(p, q[l]) < Key(p, q[i])
    requires q' == q[i := q[l]][l := q[i]]
    ensures DownHole(p, m, q', end, l)
  {
    forall x | 1 <= x < end && x != l
      ensures Below(p, q', end, x)
    {
      if x != i && x != i / 2 {
        assert Below(p, q, end, x);
      } else if x == i / 2 && x != i {
        assert Below(p, q, end, x);
      }
    }
    assert Below(p, q, end, l);
  }

  lemma DownHoleDone(p: seq<Node>, m: nat, q: seq<nat>, end: nat, i: nat, l: nat)
    requires DownHole(p, m, q, end, i) && i < end && l < end && (l == 2 * i || l == 2 * i + 1)
    requires l == 2 * i + 1 ==> Key(p, q[l]) < Key(p, q[2 * i])
    requires l == 2 * i && 2 * i + 1 < end ==> Key(p, q[l]) <= Key(p, q[2 * i + 1])
    requires Key(p, q[i]) <= Key(p, q[l])
    ensures HeapOrdered(p, q, end)
  {
    assert Below(p, q, end, i);
  }

  /** With no children below end, the sinking slot breaks no order. */
  lemma DownHoleLeaf(p: seq<Node>, m: nat, q: seq<nat>, end: nat, i: nat)
    requires DownHole(p, m, q, end, i) && end <= 2 * i
    ensures HeapOrdered(p, q, end)
  {
    if i < end {
      assert Below(p, q, end, i);
    }
  }

  /** Moving the hole from i up to its parent keeps the entries, counting n as the hole's. */
  lemma HoleMoves(q: seq<nat>, q': seq<nat>, end: nat, i: nat, n: nat, bag: multiset<nat>)
    requires 2 <= i < end <= |q| && q' == q[i := q[i / 2]]
    requires multiset(q[1..end][i - 1 := n]) == bag
    ensures multiset(q'[1..end][i / 2 - 1 := n]) == bag
  {
    var s := q[1..end][i - 1 := n];
    assert q'[1..end][i / 2 - 1 := n] == s[i - 1 := s[i / 2 - 1]][i / 2 - 1 := s[i - 1]];
  }

  /** Exchanging two heap slots keeps the entries. */
  lemma SwapKeeps(q: seq<nat>, q': seq<nat>, end: nat, i: nat, l: nat)
    requires 1 <= i < l < end <= |q| && q' == q[i := q[l]][l := q[i]]
    ensures multiset(q'[1..end]) == multiset(q[1..end])
  {
    var s := q[1..end];
    assert q'[1..end] == s[i - 1 := s[l - 1]][l - 1 := s[i - 1]];
  }

  /** Moving the last entry to the front removes the first from the multiset. */
  lemma LastToFront(q: seq<nat>, q': seq<nat>, end: nat)
    requires 1 <= end < |q| && q' == q[1 := q[end]]
    ensures multiset(q'[1..end]) == multiset(q[1..end + 1]) - multiset{q[1]}
  {
    if end > 1 {
      assert q[1..end + 1] == [q[1]] + q[2..end] + [q[end]];
      assert q'[1..end] == [q[end]] + q[2..end];
    } else {
      assert q'[1..end] == [] && q[1..end + 1] == [q[1]];
    }
  }

  /** The state of qinsert's loop: the hole at i, and the entries so far with n counted in the hole. */
  ghost predicate Rising(p: seq<Node>, m: nat, q: seq<nat>, end: nat, i: nat, n: nat, bag: multiset<nat>) {
    UpHole(p, m, q, end, i, n) && multiset(q[1..end][i - 1 := n]) == bag
  }

  lemma RisingStep(p: seq<Node>, m: nat, q: seq<nat>, q': seq<nat>, end: nat, i: nat, n: nat, bag: multiset<nat>)
    requires Rising(p, m, q, end, i, n, bag) && 2 <= i
    requires Key(p, n) < Key(p, q[i / 2]) && q' == q[i := q[i / 2]]
    ensures Rising(p, m, q', end, i / 2, n, bag)
  {
    UpHoleStep(p, m, q, q', end, i, n);
    HoleMoves(q, q', end, i, n, bag);
  }

  lemma RisingDone(p: seq<Node>, m: nat, q: seq<nat>, q': seq<nat>, end: nat, i: nat, n: nat, bag: multiset<nat>)
    requires Rising(p, m, q, end, i, n, bag)
    requires i == 1 || Key(p, q[i / 2]) <= Key(p, n)
    requires q' == q[i := n]
    ensures HeapOrdered(p, q', end) && forall k :: 1 <= k < end ==> q'[k] < m
    ensures multiset(q'[1..end]) == bag
  {
    UpHoleDone(p, m, q, q', end, i, n);
  }

  /**
   * The loop of qinsert: slot i of qq[1 .. end) is free and n is to be
   * placed; heavier parents move down into the free slot until n fits.
   */
  method SiftUp(pool: array<Node>, qq: array<nat>, end: nat, i0: nat, n: nat, ghost m: nat)
    requires 2 <= end <= qq.Length && i0 == end - 1 && n < m <= pool.Length
    requires forall k :: 1 <= k < end - 1 ==> qq[k] < m
    requires HeapOrdered(pool[..], qq[..], end - 1)
    modifies qq
    ensures HeapOrdered(pool[..], qq[..], end) && forall k :: 1 <= k < end ==> qq[k] < m
    ensures multiset(qq[1..end]) == multiset(old(qq[1..end - 1])) + multiset{n}
  {
    ghost var p := pool[..];
    ghost var q := qq[..];
    var i := i0;
    ghost var bag := multiset(q[1..end - 1]) + multiset{n};
    assert q[1..end][i - 1 := n] == q[1..end - 1] + [n];
    UpHoleInit(p, m, q, end, n);
    while i > 1 && Freq(pool[qq[i / 2]]) > Freq(pool[n])
      invariant 1 <= i < end && p == pool[..] && Rising(p, m, qq[..], end, i, n, bag)
      decreases i
    {
      i := RiseStep(pool, qq, end, i, n, m, p, bag);
    }
    ghost var q1 := qq[..];
    qq[i] := n;
    RisingDone(p, m, q1, qq[..], end, i, n, bag);
  }

  /** One step of qinsert's loop: the parent, heavier than n, moves down into the free slot. */
  method RiseStep(pool: array<Node>, qq: array<nat>, end: nat, i: nat, n: nat, ghost m: nat, ghost p: seq<Node>,
                  ghost bag: multiset<nat>) returns (j: nat)
    requires 2 <= i < end <= qq.Length && p == pool[..] && Rising(p, m, qq[..], end, i, n, bag)
    requires n < pool.Length && qq[i / 2] < pool.Length && Freq(pool[qq[i / 2]]) > Freq(pool[n])
    modifies qq
    ensures j == i / 2 && Rising(p, m, qq[..], end, j, n, bag)
  {
    ghost var q := qq[..];
    j := i / 2;
    qq[i] := qq[j];
    RisingStep(p, m, q, qq[..], end, i, n, bag);
  }

  /**
   * The loop of qremove: the entry in slot 1 of qq[1 .. end) sinks,
   * swapping with its lighter child while that child is lighter.
   */
  method SiftDown(pool: array<Node>, qq: array<nat>, end: nat, ghost m: nat)
    requires 1 <= end < qq.Length && m <= pool.Length
    requires DownHole(pool[..], m, qq[..], end, 1)
    modifies qq
    ensures HeapOrdered(pool[..], qq[..], end) && forall k :: 1 <= k < end ==> qq[k] < m
    ensures multiset(qq[1..end]) == multiset(old(qq[1..end]))
  {
    ghost var p := pool[..];
    ghost var q0 := qq[..];
    ghost var q := q0;
    var i := 1;
    while 2 * i < end
      invariant qq[..] == q && 1 <= i && (i == 1 || i < end)
      invariant DownHole(p, m, q, end, i)
      invariant multiset(q[1..end]) == multiset(q0[1..end])
    {
      var l := 2 * i;
      if l + 1 < end && Freq(pool[qq[l + 1]]) < Freq(pool[qq[l]]) {
        l := l + 1;
      }
      if Freq(pool[qq[i]]) > Freq(pool[qq[l]]) {
        qq[i], qq[l] := qq[l], qq[i];
        DownHoleStep(p, m, q, qq[..], end, i, l);
        SwapKeeps(q, qq[..], end, i, l);
        q := qq[..];
        i := l;
      } else {
        DownHoleDone(p, m, q, end, i, l);
        return;
      }
    }
    DownHoleLeaf(p, m, q, end, i);
  }

  /**
   * The code table (code, cout) holds, for every vertex of the tree t below
   * a node reached by path, the first code word of path followed by the
   * vertex's code in t, and the total length modulo 256 (the length is
   * kept in an unsigned char). Every other vertex keeps its entry of
   * (code0, cout0).
   */
  ghost predicate CodesBelow(t: Tree, path: seq<bool>, code: seq<bv64>, cout: seq<nat>, code0: seq<bv64>, cout0: seq<nat>) {
    |code| == |cout| == |code0| == |cout0| &&
    forall c :: 0 <= c < |code| ==> EntryBelow(t, path, code, cout, code0, cout0, c)
  }

  /** Entry c of the code table, as CodesBelow states it. */
  ghost predicate EntryBelow(t: Tree, path: seq<bool>, code: seq<bv64>, cout: seq<nat>, code0: seq<bv64>, cout0: seq<nat>, c: nat)
    requires c < |code| == |cout| == |code0| == |cout0|
  {
    if c in Symbols(t) then
      var w := path + PathTo(t, c);
      code[c] == FirstWord(w) && cout[c] == |w| % 256
    else
      code[c] == code0[c] && cout[c] == cout0[c]
  }

  lemma CodesLeaf(t: Tree, path: seq<bool>, code: seq<bv64>, cout: seq<nat>, code0: seq<bv64>, cout0: seq<nat>)
    requires t.Leaf? && t.c < |code| == |cout| == |code0| == |cout0|
    requires code[t.c] == FirstWord(path) && cout[t.c] == |path| % 256
    requires forall c :: 0 <= c < |code| && c != t.c ==> code[c] == code0[c] && cout[c] == cout0[c]
    ensures CodesBelow(t, path, code, cout, code0, cout0)
  {
    assert path + PathTo(t, t.c) == path;
    forall c | 0 <= c < |code|
      ensures EntryBelow(t, path, code, cout, code0, cout0, c)
    {
    }
  }

  /** The codes of an inner node's two subtrees make up its own. */
  lemma CodesJoin(t: Tree, path: seq<bool>, code2: seq<bv64>, cout2: seq<nat>,
                  code1: seq<bv64>, cout1: seq<nat>, code0: seq<bv64>, cout0: seq<nat>)
    requires t.Inner? && DistinctLeaves(t)
    requires CodesBelow(t.left, path + [false], code1, cout1, code0, cout0)
    requires CodesBelow(t.right, path + [true], code2, cout2, code1, cout1)
    ensures CodesBelow(t, path, code2, cout2, code0, cout0)
  {
    forall c | 0 <= c < |code2|
      ensures EntryBelow(t, path, code2, cout2, code0, cout0, c)
    {
      JoinAt(t, path, code2, cout2, code1, cout1, code0, cout0, c);
    }
  }

  lemma JoinAt(t: Tree, path: seq<bool>, code2: seq<bv64>, cout2: seq<nat>,
               code1: seq<bv64>, cout1: seq<nat>, code0: seq<bv64>, cout0: seq<nat>, c: nat)
    requires t.Inner? && DistinctLeaves(t)
    requires c < |code2| == |cout2| == |code1| == |cout1| == |code0| == |cout0|
    requires EntryBelow(t.left, path + [false], code1, cout1, code0, cout0, c)
    requires EntryBelow(t.right, path + [true], code2, cout2, code1, cout1, c)
    ensures EntryBelow(t, path, code2, cout2, code0, cout0, c)
  {
    if c in Symbols(t.left) {
      assert c !in Symbols(t.right);
      var q := PathTo(t.left, c);
      assert PathTo(t, c) == [false] + q;
      Associative(path, [false], q);
      assert path + PathTo(t, c) == path + [false] + q;
    } else if c in Symbols(t.right) {
      assert c in Symbols(t);
      var q := PathTo(t.right, c);
      assert PathTo(t, c) == [true] + q;
      Associative(path, [true], q);
      assert path + PathTo(t, c) == path + [true] + q;
    }
  }

  lemma Associative(a: seq<bool>, b: seq<bool>, c: seq<bool>)
    ensures a + b + c == a + (b + c)
  {
  }

  /** The accumulator after one more step to the left: shift in a 0. */
  lemma AccumulatedLeft(path: seq<bool>, w: bv64)
    requires |path| < 64 && w == Accumulated(Prefix64(path))
    ensures (w << 1) | 0 == Accumulated(Prefix64(path + [false]))
  {
    assert (path + [false])[..|path|] == path;
  }

  /** The accumulator after one more step to the right: set the low bit of the left step's word. */
  lemma AccumulatedRight(path: seq<bool>, w: bv64)
    requires |path| < 64 && w == Accumulated(Prefix64(path + [false]))
    ensures w | 1 == Accumulated(Prefix64(path + [true]))
  {
    assert (path + [false])[..|path|] == path == (path + [true])[..|path|];
  }

  /** Past 64 steps the accumulator no longer changes. */
  lemma AccumulatedLong(path: seq<bool>, b: bool, w: bv64)
    requires |path| >= 64 && w == Accumulated(Prefix64(path))
    ensures w == Accumulated(Prefix64(path + [b]))
  {
    assert (path + [b])[..64] == path[..64];
  }

  /**
   * build_code: walks the tree below node n of the pool's slots in use,
   * p, reached from the root by path (len bits; the first 64 of them
   * accumulated in out1), and records every leaf's first code word and
   * code length. The walk only reads the pool, so the pool is passed by
   * value.
   */
  method BuildCode(p: seq<Node>, code: array<bv64>, cout: array<nat>,
                   n: nat, len: nat, out1: bv64, ghost path: seq<bool>)
    requires Built(p) && n < |p| && code.Length == cout.Length && code as object != cout as object
    requires |path| == len && out1 == Accumulated(Prefix64(path))
    requires DistinctLeaves(ToTree(p, n))
    requires forall c :: c in Symbols(ToTree(p, n)) ==> c < code.Length
    modifies code, cout
    ensures CodesBelow(ToTree(p, n), path, code[..], cout[..], old(code[..]), old(cout[..]))
    decreases n
  {
    ghost var t := ToTree(p, n);
    ghost var oldCode, oldCout := code[..], cout[..];
    assert Fits(p, n);
    var x := p[n];
    if x.LeafNode? {
      assert t == Leaf(x.c, x.freq) && x.c in Symbols(t);
      var w := if len <= 64 then ShiftLeft(out1, 64 - len) else out1;
      assert w == FirstWord(path);
      code[x.c] := w;
      cout[x.c] := len % 256;
      assert code[..][x.c] == w && cout[..][x.c] == len % 256;
      CodesLeaf(t, path, code[..], cout[..], oldCode, oldCout);
    } else {
      ghost var left, right := ToTree(p, x.left), ToTree(p, x.right);
      assert t == Inner(left, right, x.freq);
      assert DistinctLeaves(left) && DistinctLeaves(right);
      assert forall c :: c in Symbols(left) || c in Symbols(right) ==> c in Symbols(t);
      if len < 64 {
        AccumulatedLeft(path, out1);
        var o := out1 << 1;
        o := o | 0;
        BuildCode(p, code, cout, x.left, len + 1, o, path + [false]);
        ghost var midCode, midCout := code[..], cout[..];
        AccumulatedRight(path, o);
        o := o | 1;
        BuildCode(p, code, cout, x.right, len + 1, o, path + [true]);
        CodesJoin(t, path, code[..], cout[..], midCode, midCout, oldCode, oldCout);
      } else {
        AccumulatedLong(path, false, out1);
        AccumulatedLong(path, true, out1);
        BuildCode(p, code, cout, x.left, len + 1, out1, path + [false]);
        ghost var midCode, midCout := code[..], cout[..];
        BuildCode(p, code, cout, x.right, len + 1, out1, path + [true]);
        CodesJoin(t, path, code[..], cout[..], midCode, midCout, oldCode, oldCout);
      }
    }
  }

  /** Some set names some vertex: the tree then has at least one leaf. */
  predicate SomeVertex(sets: seq<RRRSet>) {
    exists k :: 0 <= k < |sets| && |sets[k]| > 0
  }

  /**
   * t is the code tree of the sets, counted over the vertices below m: one
   * leaf for each vertex that occurs, carrying its number of occurrences,
   * and the root weighs all occurrences together.
   */
  ghost predicate TreeOfSets(t: Tree, sets: seq<RRRSet>, m: nat) {
    (forall v :: Symbols(t)[v] == if Occurrences(sets, v) > 0 then 1 else 0) &&
    DistinctLeaves(t) && LeafFreqs(t, CountsOf(sets, m)) && t.freq == Total(CountsOf(sets, m), m)
  }

  /**
   * The code table after build_code from the root of t: a vertex of t has
   * its code's first word and its code length modulo 256; every other
   * vertex keeps the zero entry it was created with.
   */
  ghost predicate CodeTable(t: Tree, code: seq<bv64>, cout: seq<nat>) {
    |code| == |cout| &&
    forall c :: 0 <= c < |code| ==>
      if c in Symbols(t) then code[c] == FirstWord(PathTo(t, c)) && cout[c] == |PathTo(t, c)| % 256
      else code[c] == 0 && cout[c] == 0
  }

  /** The leaf loop leaves a forest for the merge loop, with no more roots than vertices. */
  lemma LeavesReady(p: seq<Node>, q: seq<nat>, f: seq<int>)
    requires LeavesSoFar(p, q, f, |f|)
    ensures ForestState(p, q, f) && |p| == |q| <= |f|
  {
    PresentSize(f, |f|);
  }

  /** When some vertex occurs, the counts give the tree at least one leaf. */
  lemma SomeLeaf(sets: seq<RRRSet>, n: nat, m: nat)
    requires SomeVertex(sets) && VerticesBelow(sets, n) && n <= m
    ensures |Present(CountsOf(sets, m), m)| > 0
  {
    var k :| 0 <= k < |sets| && |sets[k]| > 0;
    var v := sets[k][0];
    OccurrencesOfMember(sets, k, 0);
    PresentCount(CountsOf(sets, m), m, v);
  }

  /** The single root left by the merge loop is the code tree of the sets. */
  lemma TreeOfCounts(p: seq<Node>, r: nat, sets: seq<RRRSet>, n: nat, m: nat)
    requires ForestState(p, [r], CountsOf(sets, m)) && VerticesBelow(sets, n) && n <= m
    ensures r < |p| && TreeOfSets(ToTree(p, r), sets, m)
    ensures forall c :: c in Symbols(ToTree(p, r)) ==> c < n
  {
    var f := CountsOf(sets, m);
    assert InPool(p, [r]);
    ForestOne(p, r);
    var t := ToTree(p, r);
    forall v: nat ensures Symbols(t)[v] == if Occurrences(sets, v) > 0 then 1 else 0 {
      PresentCount(f, m, v);
      if v >= m {
        OccurrencesBeyond(sets, n, v);
      }
    }
    forall c | c in Symbols(t) ensures c < n {
      if c >= n {
        OccurrencesBeyond(sets, n, c);
      }
    }
    DistinctBySymbols(t);
    ToTreeLeafFreqs(p, r, f);
  }

  /** build_code from the root into an all-zero table fills in the code table of the tree. */
  lemma CodesFromRoot(t: Tree, code: seq<bv64>, cout: seq<nat>, code0: seq<bv64>, cout0: seq<nat>)
    requires CodesBelow(t, [], code, cout, code0, cout0)
    requires forall c :: 0 <= c < |code0| ==> code0[c] == 0 && cout0[c] == 0
    ensures CodeTable(t, code, cout)
  {
    forall c | 0 <= c < |code| && c in Symbols(t)
      ensures code[c] == FirstWord(PathTo(t, c)) && cout[c] == |PathTo(t, c)| % 256
    {
      assert EntryBelow(t, [], code, cout, code0, cout0, c);
      assert [] + PathTo(t, c) == PathTo(t, c);
    }
    forall c | 0 <= c < |code| && c !in Symbols(t) ensures code[c] == 0 && cout[c] == 0 {
      assert EntryBelow(t, [], code, cout, code0, cout0, c);
    }
  }

  class HuffmanTree {
    const stateNum: nat
    const allNodes: nat
    const pool: array<Node>
    const qq: array<nat>
    const code: array<bv64>
    const cout: array<nat>
    var nNodes: nat
    var qend: nat
    var maxvtx: nat

    /** The pool slots in use. */
    ghost function Nodes(): seq<Node>
      reads this`nNodes, pool
      requires nNodes <= pool.Length
    {
      pool[..nNodes]
    }

    ghost predicate Valid()
      reads this, pool, qq
    {
      allNodes == 2 * stateNum && pool.Length == 2 * allNodes && qq.Length == 2 * allNodes + 1 &&
      code.Length == stateNum && cout.Length == stateNum && qq != cout && code as object != cout as object && pool as object != qq &&
      nNodes <= pool.Length && 1 <= qend <= qq.Length &&
      Built(pool[..nNodes]) &&
      (forall k :: 1 <= k < qend ==> qq[k] < nNodes) &&
      HeapOrdered(pool[..], qq[..], qend)
    }

    /** As created: no nodes, an empty heap, an all-zero code table. */
    ghost predicate Empty()
      reads this, code, cout
    {
      nNodes == 0 && qend == 1 && code.Length == cout.Length == stateNum &&
      (forall c :: 0 <= c < stateNum ==> code[c] == 0 && cout[c] == 0)
    }

    /** The heap entries. */
    ghost function Queue(): seq<nat>
      reads this`qend, qq
      requires 1 <= qend <= qq.Length
    {
      qq[1..qend]
    }

    /** createHuffmanTree: room for 2 * allNodes pool nodes and heap slots, and stateNum code entries. */
    constructor (stateNum: nat)
      ensures Valid() && Empty()
      ensures this.stateNum == stateNum && maxvtx == 0
      ensures fresh(pool) && fresh(qq) && fresh(code) && fresh(cout)
    {
      this.stateNum := stateNum;
      allNodes := 2 * stateNum;
      pool := new Node[4 * stateNum](_ => Unused);
      qq := new nat[4 * stateNum + 1](_ => 0);
      code := new bv64[stateNum](_ => 0);
      cout := new nat[stateNum](_ => 0);
      nNodes := 0;
      qend := 1;
      maxvtx := 0;
      new;
      assert pool[..0] == [];
    }

    /**
     * new_node: takes the next pool slot. A nonzero frequency makes a leaf
     * for vertex c; zero makes an inner node over a and b whose frequency
     * is the sum of theirs.
     */
    method NewNode(freq: nat, c: nat, a: nat, b: nat) returns (x: nat)
      requires Valid() && nNodes < pool.Length
      requires freq == 0 ==> a < nNodes && b < nNodes
      modifies this`nNodes, pool
      ensures Valid() && x == old(nNodes) && nNodes == old(nNodes) + 1
      ensures freq != 0 ==> Nodes() == old(Nodes()) + [LeafNode(c, freq)]
      ensures freq == 0 ==> Nodes() == old(Nodes()) + [InnerNode(a, b, Key(old(Nodes()), a) + Key(old(Nodes()), b))]
    {
      ghost var p := pool[..nNodes];
      ghost var whole := pool[..];
      x := nNodes;
      nNodes := nNodes + 1;
      if freq != 0 {
        pool[x] := LeafNode(c, freq);
      } else {
        pool[x] := InnerNode(a, b, Freq(pool[a]) + Freq(pool[b]));
      }
      assert pool[..nNodes] == p + [pool[x]];
      BuiltAppend(p, pool[x]);
      HeapUpdate(whole, x, pool[x], qq[..], qend);
    }

    /** qinsert: adds pool index n to the heap, moving heavier parents down. */
    method QInsert(n: nat)
      requires Valid() && n < nNodes && qend < qq.Length
      modifies this`qend, qq
      ensures Valid() && qend == old(qend) + 1
      ensures multiset(Queue()) == multiset(old(Queue())) + multiset{n}
    {
      var i := qend;
      qend := qend + 1;
      SiftUp(pool, qq, qend, i, n, nNodes);
    }

    /**
     * qremove: on an empty heap returns None and changes nothing; otherwise
     * returns the first entry, a lightest one, moves the last entry to the
     * front and lets it sink below its lighter child.
     */
    method QRemove() returns (r: Option<nat>)
      requires Valid()
      modifies this`qend, qq
      ensures Valid()
      ensures old(qend) < 2 ==> r == None && qend == old(qend) && qq[..] == old(qq[..])
      ensures old(qend) >= 2 ==>
        r == Some(old(qq[1])) && qend == old(qend) - 1 &&
        multiset(old(Queue())) == multiset(Queue()) + multiset{r.value} &&
        forall y :: y in multiset(old(Queue())) ==> Key(Nodes(), r.value) <= Key(Nodes(), y)
    {
      if qend < 2 {
        return None;
      }
      var i := 1;
      var n := qq[i];
      QueueMin(pool[..], qq[..], qend, nNodes);
      ghost var q0 := qq[..];
      qend := qend - 1;
      qq[i] := qq[qend];
      DownHoleInit(pool[..], nNodes, q0, qq[..], qend);
      LastToFront(q0, qq[..], qend);
      SiftDown(pool, qq, qend, nNodes);
      r := Some(n);
    }
 
    /**
     * The leaf loop of initByRRRSets: in vertex order, every vertex with a
     * nonzero count gets a leaf carrying that count, put into the heap.
     * Returns the vertex the scan reports (IsMaxVertex), starting from m0.
     */
    method InsertLeaves(freq: array<int>, m0: nat) returns (mv: nat)
      requires Valid() && nNodes == 0 && qend == 1
      requires freq.Length == allNodes && Counts(freq[..])
      requires freq as object != qq && freq as object != pool
      modifies this`nNodes, this`qend, pool, qq
      ensures Valid() && nNodes == qend - 1
      ensures LeavesSoFar(Nodes(), Queue(), freq[..], allNodes)
      ensures IsMaxVertex(freq[..], m0, mv)
    {
      ghost var f := freq[..];
      mv := m0;
      var maxFreq := 0;
      ScanStart(f, m0);
      assert Nodes() == [] && Queue() == [];
      var i := 0;
      while i < allNodes
        invariant 0 <= i <= allNodes && freq[..] == f
        invariant Valid() && LeavesSoFar(Nodes(), Queue(), f, i)
        invariant Scanned(f, i, m0, mv, maxFreq)
      {
        ScanStep(f, i, m0, mv, maxFreq);
        if freq[i] != 0 {
          if freq[i] >= maxFreq {
            mv := i;
            maxFreq := freq[i];
          }
          AddLeaf(f, freq[i], i);
        } else {
          LeafSkipped(Nodes(), Queue(), f, i);
        }
        i := i + 1;
      }
      ScanDone(f, m0, mv, maxFreq);
    }

    /** new_node for vertex v with count w, then qinsert of that leaf. */
    method AddLeaf(ghost f: seq<int>, w: int, v: nat)
      requires Valid() && LeavesSoFar(Nodes(), Queue(), f, v)
      requires v < |f| == allNodes && f[v] == w > 0
      modifies this`nNodes, this`qend, pool, qq
      ensures Valid() && LeavesSoFar(Nodes(), Queue(), f, v + 1)
    {
      ghost var p, q := Nodes(), Queue();
      PresentSize(f, v);
      var x := NewNode(w, v, 0, 0);
      QInsert(x);
      assert Nodes() == p + [LeafNode(v, w)];
      LeafAdded(p, q, Queue(), x, f, v);
    }

    /**
     * The merge loop of initByRRRSets: while the heap holds two or more
     * nodes, the two lightest are joined under a new inner node, which
     * goes back into the heap. With L leaves to start from, it ends with
     * 2L - 1 pool slots in use and the last one alone in the heap.
     */
    method MergeAll(ghost f: seq<int>)
      requires Valid() && ForestState(Nodes(), Queue(), f) && DepthState(Nodes(), Queue()) && nNodes == qend - 1 <= allNodes
      modifies this`nNodes, this`qend, pool, qq
      ensures Valid() && ForestState(Nodes(), Queue(), f) && DepthState(Nodes(), Queue())
      ensures old(nNodes) == 0 ==> nNodes == 0 && qend == 1
      ensures old(nNodes) > 0 ==> nNodes == 2 * old(nNodes) - 1 && qend == 2 && qq[1] == nNodes - 1
    {
      ghost var L := nNodes;
      while qend > 2
        invariant Valid() && ForestState(Nodes(), Queue(), f) && DepthState(Nodes(), Queue())
        invariant nNodes + qend - 1 == 2 * L && L <= allNodes && L <= nNodes
        invariant L > 0 ==> qend >= 2
        invariant qend == 2 ==> qq[1] == nNodes - 1
        decreases qend
      {
        MergeRound(f);
      }
    }

    /** The loop body of MergeAll: one merge round keeps the forest. */
    method MergeRound(ghost f: seq<int>)
      requires Valid() && ForestState(Nodes(), Queue(), f) && DepthState(Nodes(), Queue()) && qend > 2 && nNodes < pool.Length
      modifies this`nNodes, this`qend, pool, qq
      ensures Valid() && ForestState(Nodes(), Queue(), f) && DepthState(Nodes(), Queue())
      ensures nNodes == old(nNodes) + 1 && qend == old(qend) - 1
      ensures qend == 2 ==> qq[1] == nNodes - 1
    {
      ghost var p, q, x := Nodes(), Queue(), nNodes;
      var a, b := MergeTwo();
      MergeKept(p, Nodes(), q, Queue(), a, b, x, f);
    }

    /**
     * One round of the merge loop: qinsert(new_node(0, 0, qremove(), qremove())).
     * a is a lightest heap entry and b a lightest of the rest; the first
     * removed node is the left child.
     */
    method MergeTwo() returns (a: nat, b: nat)
      requires Valid() && qend > 2 && nNodes < pool.Length
      modifies this`nNodes, this`qend, pool, qq
      ensures Valid() && nNodes == old(nNodes) + 1 && qend == old(qend) - 1
      ensures Merged(old(Nodes()), Nodes(), old(Queue()), Queue(), a, b, old(nNodes))
    {
      ghost var p, q0 := Nodes(), Queue();
      a, b := RemoveTwo();
      ghost var q1 := Queue();
      var x := PushMerged(a, b, p);
      ghost var q3 := Queue();
      MergedQueue(p, q0, q1, q3, a, b, x);
      assert Merged(p, Nodes(), q0, q3, a, b, x);
    }

    /** qinsert(new_node(0, 0, a, b)): the inner node over a and b joins the pool and the heap. */
    method PushMerged(a: nat, b: nat, ghost p: seq<Node>) returns (x: nat)
      requires Valid() && a < nNodes && b < nNodes && nNodes < pool.Length && qend < qq.Length && Nodes() == p
      modifies this`nNodes, this`qend, pool, qq
      ensures Valid() && x == old(nNodes) && nNodes == old(nNodes) + 1 && qend == old(qend) + 1
      ensures Nodes() == p + [InnerNode(a, b, Key(p, a) + Key(p, b))]
      ensures multiset(Queue()) == multiset(old(Queue())) + multiset{x}
    {
      x := NewNode(0, 0, a, b);
      ghost var p1 := Nodes();
      assert p1 == p + [InnerNode(a, b, Key(p, a) + Key(p, b))];
      QInsert(x);
      assert Nodes() == p1;
    }

    /**
     * The two qremove calls of a merge round: a lightest entry a, then a
     * lightest entry b of the rest, so every entry left weighs at least b.
     */
    method RemoveTwo() returns (a: nat, b: nat)
      requires Valid() && qend > 2
      modifies this`qend, qq
      ensures Valid() && qend == old(qend) - 2 && a < nNodes && b < nNodes
      ensures multiset(old(Queue())) == multiset(Queue()) + multiset{a, b}
      ensures Key(Nodes(), a) <= Key(Nodes(), b)
      ensures forall k :: 0 <= k < |Queue()| ==> Key(Nodes(), b) <= Key(Nodes(), Queue()[k])
    {
      ghost var p, q0 := Nodes(), Queue();
      assert q0[0] in multiset(q0);
      var ra := QRemove();
      a := ra.value;
      ghost var q1 := Queue();
      assert q1[0] in multiset(q1);
      var rb := QRemove();
      b := rb.value;
      TwoLightest(p, q0, q1, Queue(), a, b);
    }

    /** The code tree rooted at the heap's single entry. */
    ghost function Root(): Tree
      reads this, pool, qq
      requires Valid() && qend == 2 && qq[1] < nNodes
    {
      ToTree(Nodes(), qq[1])
    }

    /** The node the decoders start from: the last one created, `pool + n_nodes - 1`. */
    function TopNode(): (t: Tree)
      reads this, pool, qq
      requires Valid() && 0 < nNodes
      ensures qend == 2 && qq[1] == nNodes - 1 ==> t == Root()
    {
      ToTree(pool[..nNodes], nNodes - 1)
    }

    /**
     * The tree-building part of initByRRRSets: count the occurrences of
     * every vertex, insert a leaf per occurring vertex, merge down to one
     * root. Returns the vertex the count scan reports, starting from m0.
     */
    method Grow(sets: seq<RRRSet>, m0: nat) returns (mv: nat)
      requires Valid() && nNodes == 0 && qend == 1
      requires VerticesBelow(sets, stateNum) && SomeVertex(sets)
      modifies this`nNodes, this`qend, pool, qq
      ensures Valid() && qend == 2 && 0 < nNodes && qq[1] == nNodes - 1
      ensures TreeOfSets(Root(), sets, allNodes) && FibHeavy(Root())
      ensures forall c :: c in Symbols(Root()) ==> c < stateNum
      ensures IsMaxVertex(CountsOf(sets, allNodes), m0, mv)
    {
      var freq := new int[allNodes](_ => 0);
      CountOccurrencies(sets, freq);
      ghost var f := CountsOf(sets, allNodes);
      assert freq[..] == f;
      mv := InsertLeaves(freq, m0);
      MergeLeaves(sets);
    }

    /** The merge loop over the leaves of the counts of sets: the heap ends with the root alone. */
    method MergeLeaves(ghost sets: seq<RRRSet>)
      requires Valid() && nNodes == qend - 1 && LeavesSoFar(Nodes(), Queue(), CountsOf(sets, allNodes), allNodes)
      requires VerticesBelow(sets, stateNum) && SomeVertex(sets)
      modifies this`nNodes, this`qend, pool, qq
      ensures Valid() && qend == 2 && 0 < nNodes && qq[1] == nNodes - 1
      ensures TreeOfSets(Root(), sets, allNodes) && FibHeavy(Root())
      ensures forall c :: c in Symbols(Root()) ==> c < stateNum
    {
      ghost var f := CountsOf(sets, allNodes);
      LeavesReady(Nodes(), Queue(), f);
      LeavesDepth(Nodes(), Queue(), f);
      SomeLeaf(sets, stateNum, allNodes);
      MergeAll(f);
      assert Queue() == [qq[1]];
      TreeOfCounts(Nodes(), qq[1], sets, stateNum, allNodes);
    }

    /**
     * build_code from the root into the all-zero code table; the pool is
     * passed by value.
     */
    method CodeFromRoot()
      requires Valid() && qend == 2 && 0 < nNodes && qq[1] == nNodes - 1
      requires DistinctLeaves(Root()) && forall c :: c in Symbols(Root()) ==> c < stateNum
      requires forall c :: 0 <= c < stateNum ==> code[c] == 0 && cout[c] == 0
      modifies code, cout
      ensures CodeTable(Root(), code[..], cout[..])
    {
      ghost var code0, cout0 := code[..], cout[..];
      BuildCode(pool[..nNodes], code, cout, qq[1], 0, 0, []);
      CodesFromRoot(Root(), code[..], cout[..], code0, cout0);
    }

    /**
     * initByRRRSets: builds the tree of the sets and its code table, and
     * reports the vertex with the most occurrences (the last one in vertex
     * order on a tie) in maxvtx and in the result.
     */
    method InitByRRRSets(sets: seq<RRRSet>) returns (mv: nat)
      requires Valid() && Empty()
      requires VerticesBelow(sets, stateNum) && SomeVertex(sets)
      modifies this`nNodes, this`qend, this`maxvtx, pool, qq, code, cout
      ensures Valid() && qend == 2 && 0 < nNodes && qq[1] == nNodes - 1
      ensures TreeOfSets(Root(), sets, allNodes) && FibHeavy(Root())
      ensures CodeTable(Root(), code[..], cout[..])
      ensures IsMaxVertex(CountsOf(sets, allNodes), 0, mv) && maxvtx == mv
    {
      mv := Grow(sets, 0);
      CodeFromRoot();
      maxvtx := mv;
    }

    /**
     * initByRRRSets2: initByRRRSets, and the occurrences of every vertex
     * are also added to globalcnt.
     */
    method InitByRRRSets2(sets: seq<RRRSet>, globalcnt: array<int>) returns (mv: nat)
      requires Valid() && Empty()
      requires VerticesBelow(sets, stateNum) && SomeVertex(sets) && globalcnt.Length == stateNum
      requires globalcnt as object != code && globalcnt as object != cout && globalcnt as object != pool && globalcnt as object != qq
      modifies this`nNodes, this`qend, this`maxvtx, pool, qq, code, cout, globalcnt
      ensures Valid() && qend == 2 && 0 < nNodes && qq[1] == nNodes - 1
      ensures TreeOfSets(Root(), sets, allNodes) && FibHeavy(Root())
      ensures CodeTable(Root(), code[..], cout[..])
      ensures IsMaxVertex(CountsOf(sets, allNodes), 0, mv) && maxvtx == mv
      ensures forall v :: 0 <= v < stateNum ==> globalcnt[v] == old(globalcnt[v]) + Occurrences(sets, v)
    {
      CountOccurrencies(sets, globalcnt);
      mv := InitByRRRSets(sets);
    }

    /**
     * initByRRRSets3: initByRRRSets, except that the scan for the most
     * frequent vertex starts from the maxvtx field rather than 0, so with
     * no occurring vertex the field would keep its value.
     */
    method InitByRRRSets3(sets: seq<RRRSet>)
      requires Valid() && Empty()
      requires VerticesBelow(sets, stateNum) && SomeVertex(sets)
      modifies this`nNodes, this`qend, this`maxvtx, pool, qq, code, cout
      ensures Valid() && qend == 2 && 0 < nNodes && qq[1] == nNodes - 1
      ensures TreeOfSets(Root(), sets, allNodes) && FibHeavy(Root())
      ensures CodeTable(Root(), code[..], cout[..])
      ensures IsMaxVertex(CountsOf(sets, allNodes), old(maxvtx), maxvtx)
    {
      var mv := Grow(sets, maxvtx);
      CodeFromRoot();
      maxvtx := mv;
    }
  }
}
