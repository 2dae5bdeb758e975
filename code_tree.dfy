/*
 * The Huffman code tree as a value: a leaf carries a symbol (a vertex id),
 * every node its frequency. Reading a 0 bit goes to the left child, a 1 bit
 * to the right. A symbol's code is the path from the root to its leaf.
 *
 * Decoding reads bits from a byte buffer, most significant bit of each
 * byte first, walks from the root to a leaf, emits its symbol and starts
 * again at the root. Decoding the concatenated codes of a list of symbols
 * gives the list back (RoundTrip), and no code is a prefix of another
 * (PrefixFree).
 */
module CodeTree {
  import opened BigEndian

  datatype Option<T> = None | Some(value: T)

  datatype Tree = Leaf(c: nat, freq: nat) | Inner(left: Tree, right: Tree, freq: nat)

  /** The symbols on the leaves, with repeats. */
  function Symbols(t: Tree): multiset<nat> {
    match t
    case Leaf(c, _) => multiset{c}
    case Inner(l, r, _) => Symbols(l) + Symbols(r)
  }

  /** No symbol labels two leaves. */
  predicate DistinctLeaves(t: Tree) {
    match t
    case Leaf(_, _) => true
    case Inner(l, r, _) => DistinctLeaves(l) && DistinctLeaves(r) && Symbols(l) !! Symbols(r)
  }

  /** A tree on which no symbol occurs twice has distinct leaves. */
  lemma {:induction false} DistinctBySymbols(t: Tree)
    requires forall c :: Symbols(t)[c] <= 1
    ensures DistinctLeaves(t)
  {
    match t
    case Leaf(_, _) =>
    case Inner(l, r, _) =>
      assert forall c :: Symbols(t)[c] == Symbols(l)[c] + Symbols(r)[c];
      DistinctBySymbols(l);
      DistinctBySymbols(r);
  }

  /** Every inner node's frequency is the sum of its children's. */
  predicate Weighted(t: Tree) {
    match t
    case Leaf(_, _) => true
    case Inner(l, r, f) => Weighted(l) && Weighted(r) && f == l.freq + r.freq
  }

  /** The sum of the leaves' frequencies. */
  function LeafWeight(t: Tree): nat {
    match t
    case Leaf(_, f) => f
    case Inner(l, r, _) => LeafWeight(l) + LeafWeight(r)
  }

  lemma {:induction false} WeightedRoot(t: Tree)
    requires Weighted(t)
    ensures t.freq == LeafWeight(t)
  {
    match t
    case Leaf(_, _) =>
    case Inner(l, r, _) =>
      WeightedRoot(l);
      WeightedRoot(r);
  }

  /** The number of edges on the longest root-to-leaf path. */
  function Height(t: Tree): nat {
    match t
    case Leaf(_, _) => 0
    case Inner(l, r, _) => 1 + (if Height(l) < Height(r) then Height(r) else Height(l))
  }

  /** Following the bits of q from the root of t ends at a leaf labelled c. */
  predicate LeafAt(t: Tree, q: seq<bool>, c: nat)
    decreases t
  {
    match t
    case Leaf(d, _) => q == [] && c == d
    case Inner(l, r, _) => |q| > 0 && LeafAt(if q[0] then r else l, q[1..], c)
  }

  /** The code of symbol c: the path to its leftmost leaf. */
  function PathTo(t: Tree, c: nat): (q: seq<bool>)
    requires c in Symbols(t)
    ensures |q| <= Height(t)
  {
    match t
    case Leaf(_, _) => []
    case Inner(l, r, _) => if c in Symbols(l) then [false] + PathTo(l, c) else [true] + PathTo(r, c)
  }

  lemma {:induction false} PathToLeads(t: Tree, c: nat)
    requires c in Symbols(t)
    ensures LeafAt(t, PathTo(t, c), c)
  {
    match t
    case Leaf(_, _) =>
    case Inner(l, r, _) =>
      var q := PathTo(t, c);
      if c in Symbols(l) {
        PathToLeads(l, c);
        assert q[1..] == PathTo(l, c);
      } else {
        PathToLeads(r, c);
        assert q[1..] == PathTo(r, c);
      }
  }

  lemma {:induction false} LeafAtSymbol(t: Tree, q: seq<bool>, c: nat)
    requires LeafAt(t, q, c)
    ensures c in Symbols(t)
  {
    match t
    case Leaf(_, _) =>
    case Inner(l, r, _) =>
      LeafAtSymbol(if q[0] then r else l, q[1..], c);
  }

  /** With distinct leaves, the path to a symbol is its code. */
  lemma {:induction false} PathUnique(t: Tree, q: seq<bool>, c: nat)
    requires DistinctLeaves(t) && LeafAt(t, q, c)
    ensures c in Symbols(t) && q == PathTo(t, c)
  {
    LeafAtSymbol(t, q, c);
    match t
    case Leaf(_, _) =>
    case Inner(l, r, _) =>
      if q[0] {
        PathUnique(r, q[1..], c);
        assert c !in Symbols(l);
      } else {
        PathUnique(l, q[1..], c);
      }
  }

  /** No code is a proper prefix of another: the code is prefix-free. */
  lemma {:induction false} PrefixFree(t: Tree, q1: seq<bool>, c1: nat, q2: seq<bool>, c2: nat)
    requires LeafAt(t, q1, c1) && LeafAt(t, q2, c2) && q1 <= q2
    ensures q1 == q2 && c1 == c2
  {
    match t
    case Leaf(_, _) =>
    case Inner(l, r, _) =>
      assert q2[0] == q1[0];
      assert q1[1..] <= q2[1..];
      PrefixFree(if q1[0] then r else l, q1[1..], c1, q2[1..], c2);
      assert q1 == [q1[0]] + q1[1..];
      assert q2 == [q2[0]] + q2[1..];
  }

  /** The bits of s from position i on begin with q. */
  predicate BitsFrom(s: seq<bv8>, i: nat, q: seq<bool>) {
    i + |q| <= 8 * |s| && forall j :: 0 <= j < |q| ==> BitAt(s, i + j) == q[j]
  }

  /**
   * One symbol: walk from the root of t reading the bits of s from position
   * i, and return the leaf's symbol and the position after the last bit
   * read; None when the bits run out first. A leaf root reads no bits.
   */
  function Walk(t: Tree, s: seq<bv8>, i: nat): Option<(nat, nat)>
    decreases t
  {
    match t
    case Leaf(c, _) => Some((c, i))
    case Inner(l, r, _) =>
      if i < 8 * |s| then Walk(if BitAt(s, i) then r else l, s, i + 1) else None
  }

  /** The first n symbols of s and the bit position after them; None when s ends too soon. */
  function DecodeFrom(t: Tree, s: seq<bv8>, n: nat): (r: Option<(seq<nat>, nat)>)
    ensures r.Some? ==> |r.value.0| == n
  {
    if n == 0 then Some(([], 0))
    else
      match DecodeFrom(t, s, n - 1)
      case None => None
      case Some((syms, i)) =>
        match Walk(t, s, i)
        case None => None
        case Some((c, j)) => Some((syms + [c], j))
  }

  /** Decoding n + 1 symbols decodes the first n first. */
  lemma {:induction false} DecodePrefix(t: Tree, s: seq<bv8>, m: nat, n: nat)
    requires m <= n && DecodeFrom(t, s, n).Some?
    ensures DecodeFrom(t, s, m).Some?
    ensures DecodeFrom(t, s, m).value.0 == DecodeFrom(t, s, n).value.0[..m]
    decreases n
  {
    if m < n {
      DecodePrefix(t, s, m, n - 1);
      var syms := DecodeFrom(t, s, n - 1).value.0;
      assert DecodeFrom(t, s, n).value.0[..n - 1] == syms;
      assert DecodeFrom(t, s, n).value.0[..m] == syms[..m];
    } else {
      assert DecodeFrom(t, s, n).value.0[..n] == DecodeFrom(t, s, n).value.0;
    }
  }

  /** The codes of syms, one after the other. */
  function Encode(t: Tree, syms: seq<nat>): seq<bool>
    requires forall k :: 0 <= k < |syms| ==> syms[k] in Symbols(t)
  {
    if |syms| == 0 then [] else Encode(t, syms[..|syms| - 1]) + PathTo(t, syms[|syms| - 1])
  }

  lemma {:induction false} WalkPath(t: Tree, q: seq<bool>, c: nat, s: seq<bv8>, i: nat)
    requires LeafAt(t, q, c) && BitsFrom(s, i, q)
    ensures Walk(t, s, i) == Some((c, i + |q|))
  {
    match t
    case Leaf(_, _) =>
    case Inner(l, r, _) =>
      assert BitAt(s, i + 0) == q[0];
      assert BitsFrom(s, i + 1, q[1..]) by {
        forall j | 0 <= j < |q[1..]|
          ensures BitAt(s, i + 1 + j) == q[1..][j]
        {
          assert BitAt(s, i + (j + 1)) == q[j + 1];
        }
      }
      WalkPath(if q[0] then r else l, q[1..], c, s, i + 1);
  }

  lemma BitsFromPrefix(s: seq<bv8>, a: seq<bool>, b: seq<bool>)
    requires BitsFrom(s, 0, a + b)
    ensures BitsFrom(s, 0, a) && BitsFrom(s, |a|, b)
  {
    assert forall j :: 0 <= j < |a| ==> (a + b)[j] == a[j];
    forall j | 0 <= j < |b|
      ensures BitAt(s, |a| + j) == b[j]
    {
      assert (a + b)[|a| + j] == b[j];
    }
  }

  /** A nonempty sequence is its front followed by its last element. */
  lemma SplitLast(xs: seq<nat>)
    requires |xs| > 0
    ensures xs[..|xs| - 1] + [xs[|xs| - 1]] == xs
  {
  }

  /** Decoding the concatenated codes of syms gives syms back. */
  lemma {:induction false} RoundTrip(t: Tree, syms: seq<nat>, s: seq<bv8>)
    requires forall k :: 0 <= k < |syms| ==> syms[k] in Symbols(t)
    requires BitsFrom(s, 0, Encode(t, syms))
    ensures DecodeFrom(t, s, |syms|) == Some((syms, |Encode(t, syms)|))
  {
    if |syms| > 0 {
      var front := syms[..|syms| - 1];
      LastWalk(t, syms, s);
      RoundTrip(t, front, s);
      DecodeStep(t, s, syms, |Encode(t, front)|, |Encode(t, syms)|);
    }
  }

  /**
   * The codes of syms: those of all but the last symbol, then the code of
   * the last, which the walk from there reads to the end.
   */
  lemma LastWalk(t: Tree, syms: seq<nat>, s: seq<bv8>)
    requires |syms| > 0 && forall k :: 0 <= k < |syms| ==> syms[k] in Symbols(t)
    requires BitsFrom(s, 0, Encode(t, syms))
    ensures BitsFrom(s, 0, Encode(t, syms[..|syms| - 1]))
    ensures Walk(t, s, |Encode(t, syms[..|syms| - 1])|) == Some((syms[|syms| - 1], |Encode(t, syms)| as nat))
  {
    var c := syms[|syms| - 1];
    var e, q := Encode(t, syms[..|syms| - 1]), PathTo(t, c);
    assert Encode(t, syms) == e + q;
    BitsFromPrefix(s, e, q);
    PathToLeads(t, c);
    WalkPath(t, q, c, s, |e|);
  }

  /** Decoding all of syms but the last, then walking to the last one, decodes syms. */
  lemma DecodeStep(t: Tree, s: seq<bv8>, syms: seq<nat>, i: nat, j: nat)
    requires |syms| > 0 && DecodeFrom(t, s, |syms| - 1) == Some((syms[..|syms| - 1], i))
    requires Walk(t, s, i) == Some((syms[|syms| - 1], j))
    ensures DecodeFrom(t, s, |syms|) == Some((syms, j))
  {
    SplitLast(syms);
  }

  /** The position of the first occurrence of x in xs. */
  function IndexOf(xs: seq<nat>, x: nat): (k: nat)
    requires x in xs
    ensures k < |xs| && xs[k] == x && x !in xs[..k]
  {
    if xs[0] == x then 0 else 1 + IndexOf(xs[1..], x)
  }

  /** A position holding x with no x before it is the first occurrence. */
  lemma FirstIndex(s: seq<nat>, x: nat, i: nat)
    requires i < |s| && s[i] == x && x !in s[..i]
    ensures x in s && IndexOf(s, x) == i
  {
  }
}
