/*
 * The node pool of the Huffman tree. Nodes are taken from the pool in
 * order; an inner node is made from two nodes taken earlier, so its
 * children sit at smaller pool indices and every slot in use roots a
 * finite code tree (ToTree). The priority queue holds pool indices; the
 * trees they root form a forest whose leaves (LeafBag) and total weight
 * (KeySum) the build loop keeps track of.
 */
module HuffmanPool {
  import opened CodeTree
  import opened Counting
  import opened Frequencies
  import opened TreeDepth

  /**
   * A pool slot: Unused is a zeroed slot, a leaf carries a vertex and its
   * frequency, an inner node the pool indices of its two children.
   */
  datatype Node = Unused | LeafNode(c: nat, freq: nat) | InnerNode(left: nat, right: nat, freq: nat)

  function Freq(x: Node): nat {
    if x.Unused? then 0 else x.freq
  }

  /** The frequency of the node at pool index x (0 outside the pool). */
  function Key(p: seq<Node>, x: nat): nat {
    if x < |p| then Freq(p[x]) else 0
  }

  /** Slot x is in use; if inner, its children are earlier and its frequency is their sum. */
  predicate Fits(p: seq<Node>, x: nat)
    requires x < |p|
  {
    match p[x]
    case Unused => false
    case LeafNode(_, _) => true
    case InnerNode(l, r, f) => l < x && r < x && f == Freq(p[l]) + Freq(p[r])
  }

  /** Every slot of p is in use and linked to earlier ones. */
  predicate Built(p: seq<Node>) {
    forall x :: 0 <= x < |p| ==> Fits(p, x)
  }

  /** The code tree rooted at pool index x. */
  function ToTree(p: seq<Node>, x: nat): (t: Tree)
    requires Built(p) && x < |p|
    ensures Weighted(t) && t.freq == Freq(p[x])
    decreases x
  {
    assert Fits(p, x);
    match p[x]
    case LeafNode(c, f) => Leaf(c, f)
    case InnerNode(l, r, f) => Inner(ToTree(p, l), ToTree(p, r), f)
  }

  /** Taking one more slot leaves the trees of the earlier slots as they were. */
  lemma {:induction false} ToTreeAppend(p: seq<Node>, y: Node, x: nat)
    requires Built(p) && Built(p + [y]) && x < |p|
    ensures ToTree(p + [y], x) == ToTree(p, x)
    decreases x
  {
    assert Fits(p, x) && (p + [y])[x] == p[x];
    match p[x]
    case LeafNode(_, _) =>
    case InnerNode(l, r, _) =>
      ToTreeAppend(p, y, l);
      ToTreeAppend(p, y, r);
  }

  lemma BuiltAppend(p: seq<Node>, y: Node)
    requires Built(p)
    requires y.LeafNode? || (y.InnerNode? && y.left < |p| && y.right < |p| && y.freq == Freq(p[y.left]) + Freq(p[y.right]))
    ensures Built(p + [y])
  {
    forall x | 0 <= x < |p| + 1
      ensures Fits(p + [y], x)
    {
      if x < |p| {
        assert Fits(p, x);
        var q := p + [y];
        assert q[x] == p[x];
        match p[x]
        case LeafNode(_, _) =>
        case InnerNode(l, r, _) =>
          assert q[l] == p[l] && q[r] == p[r];
      }
    }
  }

  /** Every leaf of t carries the frequency f gives its vertex. */
  predicate LeafFreqs(t: Tree, f: seq<int>) {
    match t
    case Leaf(c, w) => c < |f| && w == f[c]
    case Inner(l, r, _) => LeafFreqs(l, f) && LeafFreqs(r, f)
  }

  /** Every leaf slot of p carries the frequency f gives its vertex. */
  predicate Carries(p: seq<Node>, f: seq<int>) {
    forall y :: 0 <= y < |p| && p[y].LeafNode? ==> p[y].c < |f| && p[y].freq == f[p[y].c]
  }

  lemma {:induction false} ToTreeLeafFreqs(p: seq<Node>, x: nat, f: seq<int>)
    requires Built(p) && x < |p| && Carries(p, f)
    ensures LeafFreqs(ToTree(p, x), f)
    decreases x
  {
    assert Fits(p, x);
    match p[x]
    case LeafNode(_, _) =>
    case InnerNode(l, r, _) =>
      ToTreeLeafFreqs(p, l, f);
      ToTreeLeafFreqs(p, r, f);
  }

  /** All pool indices of xs are slots of p. */
  predicate InPool(p: seq<Node>, xs: seq<nat>) {
    forall k :: 0 <= k < |xs| ==> xs[k] < |p|
  }

  /** The leaves of the trees rooted at xs, with repeats. */
  function LeafBag(p: seq<Node>, xs: seq<nat>): multiset<nat>
    requires Built(p) && InPool(p, xs)
  {
    if |xs| == 0 then multiset{}
    else LeafBag(p, xs[..|xs| - 1]) + Symbols(ToTree(p, xs[|xs| - 1]))
  }

  /** The frequencies of the nodes at xs, added up. */
  function KeySum(p: seq<Node>, xs: seq<nat>): nat {
    if |xs| == 0 then 0 else KeySum(p, xs[..|xs| - 1]) + Key(p, xs[|xs| - 1])
  }

  lemma {:induction false} ForestSplit(p: seq<Node>, a: seq<nat>, b: seq<nat>)
    requires Built(p) && InPool(p, a) && InPool(p, b)
    ensures InPool(p, a + b)
    ensures LeafBag(p, a + b) == LeafBag(p, a) + LeafBag(p, b)
    ensures KeySum(p, a + b) == KeySum(p, a) + KeySum(p, b)
  {
    if |b| == 0 {
      assert a + b == a;
    } else {
      var b' := b[..|b| - 1];
      assert (a + b)[..|a + b| - 1] == a + b';
      ForestSplit(p, a, b');
    }
  }

  lemma ForestRemove(p: seq<Node>, xs: seq<nat>, i: nat)
    requires Built(p) && InPool(p, xs) && i < |xs|
    ensures InPool(p, xs[..i] + xs[i + 1..])
    ensures LeafBag(p, xs) == LeafBag(p, xs[..i] + xs[i + 1..]) + Symbols(ToTree(p, xs[i]))
    ensures KeySum(p, xs) == KeySum(p, xs[..i] + xs[i + 1..]) + Key(p, xs[i])
  {
    assert xs == xs[..i] + ([xs[i]] + xs[i + 1..]);
    ForestSplit(p, xs[..i], [xs[i]] + xs[i + 1..]);
    ForestSplit(p, [xs[i]], xs[i + 1..]);
    ForestSplit(p, xs[..i], xs[i + 1..]);
    var one := [xs[i]];
    assert one[..0] == [];
  }

  /** The forest's leaves and weight depend on its roots, not on their order. */
  lemma {:induction false} ForestPerm(p: seq<Node>, a: seq<nat>, b: seq<nat>)
    requires Built(p) && InPool(p, a) && multiset(a) == multiset(b)
    ensures InPool(p, b)
    ensures LeafBag(p, a) == LeafBag(p, b) && KeySum(p, a) == KeySum(p, b)
  {
    forall k | 0 <= k < |b| ensures b[k] < |p| {
      assert b[k] in multiset(a);
    }
    if |a| == 0 {
      assert |b| == |multiset(b)| == 0;
    } else {
      var x := a[|a| - 1];
      var a' := a[..|a| - 1];
      assert a == a' + [x];
      assert x in multiset(b);
      var i :| 0 <= i < |b| && b[i] == x;
      assert multiset(a') == multiset(a) - multiset{x};
      MultisetRemove(b, i);
      ForestPerm(p, a', b[..i] + b[i + 1..]);
      ForestRemove(p, b, i);
    }
  }

  /** Appending a slot leaves the forest of earlier roots as it was. */
  lemma {:induction false} ForestAppend(p: seq<Node>, y: Node, xs: seq<nat>)
    requires Built(p) && Built(p + [y]) && InPool(p, xs)
    ensures InPool(p + [y], xs)
    ensures LeafBag(p + [y], xs) == LeafBag(p, xs) && KeySum(p + [y], xs) == KeySum(p, xs)
  {
    if |xs| > 0 {
      ForestAppend(p, y, xs[..|xs| - 1]);
      ToTreeAppend(p, y, xs[|xs| - 1]);
    }
  }

  /** Taking root x out of the forest takes its tree's leaves and weight with it. */
  lemma ForestTake(p: seq<Node>, xs: seq<nat>, ys: seq<nat>, x: nat)
    requires Built(p) && InPool(p, xs) && x in multiset(xs)
    requires multiset(ys) == multiset(xs) - multiset{x}
    ensures x < |p| && InPool(p, ys)
    ensures LeafBag(p, xs) == LeafBag(p, ys) + Symbols(ToTree(p, x))
    ensures KeySum(p, xs) == KeySum(p, ys) + Key(p, x)
  {
    var i :| 0 <= i < |xs| && xs[i] == x;
    MultisetRemove(xs, i);
    ForestRemove(p, xs, i);
    ForestPerm(p, xs[..i] + xs[i + 1..], ys);
  }

  /** Adding root x to the forest adds its tree's leaves and weight. */
  lemma ForestInsert(p: seq<Node>, xs: seq<nat>, ys: seq<nat>, x: nat)
    requires Built(p) && InPool(p, xs) && x < |p|
    requires multiset(ys) == multiset(xs) + multiset{x}
    ensures InPool(p, ys)
    ensures LeafBag(p, ys) == LeafBag(p, xs) + Symbols(ToTree(p, x))
    ensures KeySum(p, ys) == KeySum(p, xs) + Key(p, x)
  {
    var zs := xs + [x];
    assert zs[..|zs| - 1] == xs;
    ForestPerm(p, zs, ys);
  }

  /** A one-root forest is that root's tree. */
  lemma ForestOne(p: seq<Node>, x: nat)
    requires Built(p) && x < |p|
    ensures InPool(p, [x])
    ensures LeafBag(p, [x]) == Symbols(ToTree(p, x)) && KeySum(p, [x]) == Key(p, x)
  {
    assert [x][..0] == [];
  }

  lemma CarriesAppend(p: seq<Node>, y: Node, f: seq<int>)
    requires Carries(p, f) && (y.LeafNode? ==> y.c < |f| && y.freq == f[y.c])
    ensures Carries(p + [y], f)
  {
    var p' := p + [y];
    forall z | 0 <= z < |p'| && p'[z].LeafNode?
      ensures p'[z].c < |f| && p'[z].freq == f[p'[z].c]
    {
      if z < |p| {
        assert p'[z] == p[z];
      }
    }
  }

  /** The forest of the merge loop: its leaves are the vertices with a nonzero count and its weight their total count. */
  ghost predicate ForestState(p: seq<Node>, q: seq<nat>, f: seq<int>) {
    Built(p) && InPool(p, q) && Carries(p, f) &&
    LeafBag(p, q) == Present(f, |f|) && KeySum(p, q) == Total(f, |f|)
  }

  /** Taking the two roots a and b out and putting back a new root x above them keeps the forest's leaves and weight. */
  /**
   * The heap after a merge round, as a bag: the entries q3 plus the two
   * removed ones a and b are the entries q0 plus the new slot x. Since a
   * and b are not x, both came out of q0.
   */
  lemma MergeBag(q0: seq<nat>, q3: seq<nat>, a: nat, b: nat, x: nat)
    requires a != x && b != x
    requires multiset(q3) + multiset{a, b} == multiset(q0) + multiset{x}
    ensures a in multiset(q0) && b in multiset(q0) - multiset{a}
    ensures multiset(q3) == multiset(q0) - multiset{a} - multiset{b} + multiset{x}
  {
    var m0, m3 := multiset(q0), multiset(q3);
    assert (m3 + multiset{a, b})[a] == (m0 + multiset{x})[a];
    assert (m3 + multiset{a, b})[b] == (m0 + multiset{x})[b];
    assert m3 == m0 - multiset{a} - multiset{b} + multiset{x} by {
      forall y ensures m3[y] == (m0 - multiset{a} - multiset{b} + multiset{x})[y] {
        assert (m3 + multiset{a, b})[y] == (m0 + multiset{x})[y];
      }
    }
  }

  /** Taking two roots out of the forest takes both trees' leaves and weights with them. */
  lemma TakeTwo(p: seq<Node>, q0: seq<nat>, a: nat, b: nat) returns (q2: seq<nat>)
    requires Built(p) && InPool(p, q0) && a in multiset(q0) && b in multiset(q0) - multiset{a}
    ensures a < |p| && b < |p| && InPool(p, q2)
    ensures multiset(q2) == multiset(q0) - multiset{a} - multiset{b}
    ensures LeafBag(p, q0) == LeafBag(p, q2) + Symbols(ToTree(p, a)) + Symbols(ToTree(p, b))
    ensures KeySum(p, q0) == KeySum(p, q2) + Key(p, a) + Key(p, b)
  {
    var i :| 0 <= i < |q0| && q0[i] == a;
    var q1 := q0[..i] + q0[i + 1..];
    MultisetRemove(q0, i);
    var j :| 0 <= j < |q1| && q1[j] == b;
    q2 := q1[..j] + q1[j + 1..];
    MultisetRemove(q1, j);
    ForestTake(p, q0, q1, a);
    ForestTake(p, q1, q2, b);
  }

  /**
   * One merge round keeps the forest: a new inner slot over roots a and b
   * replaces them in the heap by itself, so the forest keeps its leaves
   * and its weight.
   */
  lemma MergeAdded(p: seq<Node>, p': seq<Node>, q0: seq<nat>, q3: seq<nat>, a: nat, b: nat, x: nat, f: seq<int>)
    requires ForestState(p, q0, f)
    requires x == |p| && p' == p + [InnerNode(a, b, Key(p, a) + Key(p, b))] && Built(p')
    requires multiset(q3) + multiset{a, b} == multiset(q0) + multiset{x}
    ensures ForestState(p', q3, f)
  {
    var y := InnerNode(a, b, Key(p, a) + Key(p, b));
    assert Fits(p', x);
    MergeBag(q0, q3, a, b, x);
    var q2 := TakeTwo(p, q0, a, b);
    ForestAppend(p, y, q2);
    MergeTree(p, a, b);
    assert multiset(q3) == multiset(q2) + multiset{x};
    ForestInsert(p', q2, q3, x);
    CarriesAppend(p, y, f);
  }

  /** The tree of a new inner slot over a and b joins the trees of a and b. */
  lemma MergeTree(p: seq<Node>, a: nat, b: nat)
    requires Built(p) && a < |p| && b < |p| && Built(p + [InnerNode(a, b, Key(p, a) + Key(p, b))])
    ensures Symbols(ToTree(p + [InnerNode(a, b, Key(p, a) + Key(p, b))], |p|)) == Symbols(ToTree(p, a)) + Symbols(ToTree(p, b))
    ensures Key(p + [InnerNode(a, b, Key(p, a) + Key(p, b))], |p|) == Key(p, a) + Key(p, b)
  {
    var y := InnerNode(a, b, Key(p, a) + Key(p, b));
    ToTreeAppend(p, y, a);
    ToTreeAppend(p, y, b);
    assert ToTree(p + [y], |p|) == Inner(ToTree(p, a), ToTree(p, b), y.freq);
  }

  /**
   * The pool slots p and the heap entries q after the leaf loop has seen
   * the counts below i: one slot per heap entry, the forest's leaves are
   * the vertices with a nonzero count, its weight their total count.
   */
  ghost predicate LeavesSoFar(p: seq<Node>, q: seq<nat>, f: seq<int>, i: nat) {
    i <= |f| && Built(p) && InPool(p, q) && |p| == |q| == |Present(f, i)| &&
    LeafBag(p, q) == Present(f, i) && KeySum(p, q) == Total(f, i) && Carries(p, f) &&
    forall y :: 0 <= y < |p| ==> p[y].LeafNode? && p[y].freq > 0
  }

  lemma LeafSkipped(p: seq<Node>, q: seq<nat>, f: seq<int>, i: nat)
    requires i < |f| && f[i] == 0 && LeavesSoFar(p, q, f, i)
    ensures LeavesSoFar(p, q, f, i + 1)
  {
    assert Present(f, i + 1) == Present(f, i);
  }

  /** Appending leaf i to the pool and inserting it into the heap adds vertex i to the forest. */
  lemma LeafAdded(p: seq<Node>, q: seq<nat>, q': seq<nat>, x: nat, f: seq<int>, i: nat)
    requires i < |f| && f[i] > 0 && x == |p| && LeavesSoFar(p, q, f, i)
    requires Built(p + [LeafNode(i, f[i])]) && multiset(q') == multiset(q) + multiset{x}
    ensures LeavesSoFar(p + [LeafNode(i, f[i])], q', f, i + 1)
  {
    assert |q'| == |multiset(q')| == |q| + 1;
    var y := LeafNode(i, f[i]);
    var p' := p + [y];
    assert Present(f, i + 1) == Present(f, i) + multiset{i};
    assert Total(f, i + 1) == Total(f, i) + f[i];
    ForestAppend(p, y, q);
    ForestInsert(p', q, q', x);
    assert ToTree(p', x) == Leaf(i, f[i]);
    CarriesAppend(p, y, f);
  }

  /**
   * The heap roots of the merge loop as Huffman's rule shapes them: the
   * tree of each root is FibHeavy, and the heavier (right) child of every
   * inner root weighs no more than any root.
   */
  ghost predicate DepthState(p: seq<Node>, q: seq<nat>)
    requires Built(p) && InPool(p, q)
  {
    (forall k :: 0 <= k < |q| ==> FibHeavy(ToTree(p, q[k]))) &&
    (forall i, j :: 0 <= i < |q| && 0 <= j < |q| && ToTree(p, q[j]).Inner? ==>
      ToTree(p, q[j]).right.freq <= Key(p, q[i]))
  }

  /** Leaves of nonzero weight, and nothing else, are Huffman roots. */
  lemma LeavesDepth(p: seq<Node>, q: seq<nat>, f: seq<int>)
    requires LeavesSoFar(p, q, f, |f|)
    ensures DepthState(p, q)
  {
    forall k | 0 <= k < |q| ensures ToTree(p, q[k]).Leaf? && FibHeavy(ToTree(p, q[k])) {
      LeafHeavy(p[q[k]].c, p[q[k]].freq);
    }
  }

  /** An entry of the heap after a merge round other than the new slot x was an entry before it. */
  lemma StayedRoot(q0: seq<nat>, q3: seq<nat>, a: nat, b: nat, x: nat, k: nat) returns (i: nat)
    requires k < |q3| && q3[k] != x
    requires multiset(q3) == multiset(q0) - multiset{a} - multiset{b} + multiset{x}
    ensures i < |q0| && q0[i] == q3[k]
  {
    assert q3[k] in multiset(q3);
    assert q3[k] in multiset(q0);
    i :| 0 <= i < |q0| && q0[i] == q3[k];
  }

  /**
   * A merge round keeps the roots Huffman roots: the new slot joins a
   * lightest root a with a lightest root b of the rest, and every root
   * left weighs at least b.
   */
  lemma MergeDeepens(p: seq<Node>, p': seq<Node>, q0: seq<nat>, q3: seq<nat>, a: nat, b: nat, x: nat)
    requires Built(p) && InPool(p, q0) && DepthState(p, q0)
    requires x == |p| && a < x && b < x && p' == p + [InnerNode(a, b, Key(p, a) + Key(p, b))]
    requires Built(p') && InPool(p', q3)
    requires multiset(q3) + multiset{a, b} == multiset(q0) + multiset{x}
    requires Key(p, a) <= Key(p, b)
    requires forall k :: 0 <= k < |q3| && q3[k] != x ==> Key(p, b) <= Key(p, q3[k])
    ensures DepthState(p', q3)
  {
    var y := InnerNode(a, b, Key(p, a) + Key(p, b));
    MergeBag(q0, q3, a, b, x);
    var ia :| 0 <= ia < |q0| && q0[ia] == a;
    assert b in multiset(q0);
    var ib :| 0 <= ib < |q0| && q0[ib] == b;
    var ta, tb := ToTree(p, a), ToTree(p, b);
    ToTreeAppend(p, y, a);
    ToTreeAppend(p, y, b);
    assert Fits(p', x);
    var tx := ToTree(p', x);
    assert tx == Inner(ta, tb, y.freq);
    JoinHeavy(ta, tb, y.freq);
    forall k | 0 <= k < |q3| ensures FibHeavy(ToTree(p', q3[k])) && Key(p, a) <= Key(p', q3[k]) {
      if q3[k] != x {
        var i := StayedRoot(q0, q3, a, b, x, k);
        ToTreeAppend(p, y, q3[k]);
      }
    }
    forall i, j | 0 <= i < |q3| && 0 <= j < |q3| && ToTree(p', q3[j]).Inner?
      ensures ToTree(p', q3[j]).right.freq <= Key(p', q3[i])
    {
      if q3[j] != x {
        var j0 := StayedRoot(q0, q3, a, b, x, j);
        ToTreeAppend(p, y, q3[j]);
        assert ToTree(p, q0[j0]).right.freq <= Key(p, q0[ia]);
      } else if q3[i] != x {
        assert Key(p', q3[i]) == Key(p, q3[i]);
      }
    }
  }
}
