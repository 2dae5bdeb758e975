/*
 * How deep a Huffman tree can be. Merging the two lightest roots, as the
 * build loop does, keeps every subtree at least as heavy as the Fibonacci
 * number two past its height (FibHeavy), so a tree whose root weight fits
 * in a 64-bit size_t is less than 128 deep (ShallowRoot). That keeps every
 * code length within the unsigned char that holds it.
 */
module TreeDepth {
  import opened CodeTree

  function Fib(k: nat): nat {
    if k < 2 then k else Fib(k - 1) + Fib(k - 2)
  }

  function Pow2(k: nat): nat {
    if k == 0 then 1 else 2 * Pow2(k - 1)
  }

  /** The size_t range: 2^64. */
  const SizeLimit: nat := 0x1_0000_0000_0000_0000

  /**
   * Every subtree of t weighs at least Fib(height + 2), and the right
   * child of every inner node is no lighter than the left one.
   */
  predicate FibHeavy(t: Tree) {
    t.freq >= Fib(Height(t) + 2) &&
    match t
    case Leaf(_, _) => true
    case Inner(l, r, _) => FibHeavy(l) && FibHeavy(r) && l.freq <= r.freq
  }

  lemma {:induction false} FibMono(a: nat, b: nat)
    requires a <= b
    ensures Fib(a) <= Fib(b)
    decreases b - a
  {
    if a < b {
      FibMono(a + 1, b);
    }
  }

  /** A leaf of nonzero weight is FibHeavy. */
  lemma LeafHeavy(c: nat, w: nat)
    requires w > 0
    ensures FibHeavy(Leaf(c, w))
  {
    assert Fib(2) == Fib(1) + Fib(0) == 1;
  }

  /** x and y, at least the two Fibonacci numbers before Fib(h + 2), add up to at least Fib(h + 2). */
  lemma FibSum(h: nat, x: nat, y: nat)
    requires x >= Fib(h + 1) && y >= Fib(h)
    ensures x + y >= Fib(h + 2)
  {
  }

  /** The heavier child of a FibHeavy inner node weighs at least Fib(height + 1). */
  lemma HeavyRight(t: Tree)
    requires FibHeavy(t) && t.Inner?
    ensures t.right.freq >= Fib(Height(t) + 1)
  {
    var hl, hr := Height(t.left), Height(t.right);
    if hl < hr {
      FibMono(hr + 2, Height(t) + 1);
    } else {
      FibMono(hl + 2, Height(t) + 1);
    }
  }

  /**
   * Joining l under a new root with r, where l is no heavier than r and,
   * when r is inner, no lighter than r's heavier child, keeps FibHeavy.
   */
  lemma JoinHeavy(l: Tree, r: Tree, w: nat)
    requires FibHeavy(l) && FibHeavy(r) && l.freq <= r.freq && w == l.freq + r.freq
    requires r.Inner? ==> r.right.freq <= l.freq
    ensures FibHeavy(Inner(l, r, w))
  {
    var h := Height(Inner(l, r, w));
    if Height(l) >= Height(r) {
      FibMono(h, h + 1);
    } else {
      HeavyRight(r);
    }
    FibSum(h, r.freq, l.freq);
  }

  /** The Fibonacci numbers at least double every second step. */
  lemma {:induction false} FibDoubles(j: nat)
    ensures Fib(2 * j + 2) >= Pow2(j)
  {
    if j > 0 {
      FibDoubles(j - 1);
      var k := 2 * j;
      assert Fib(k + 2) == Fib(k + 1) + Fib(k) == 2 * Fib(k) + Fib(k - 1);
    }
  }

  lemma FibBeyond(j: nat, h: nat)
    requires 2 * j <= h
    ensures Fib(h + 2) >= Pow2(j)
  {
    FibDoubles(j);
    FibMono(2 * j + 2, h + 2);
  }

  lemma {:induction false} Pow2Add(a: nat, b: nat)
    ensures Pow2(a + b) == Pow2(a) * Pow2(b)
  {
    if a > 0 {
      Pow2Add(a - 1, b);
      calc {
        Pow2(a + b);
        2 * Pow2(a - 1 + b);
        2 * (Pow2(a - 1) * Pow2(b));
        (2 * Pow2(a - 1)) * Pow2(b);
      }
    }
  }

  /** 2^64, by squaring 2 six times. */
  lemma Pow2Word()
    ensures Pow2(64) == SizeLimit
  {
    Pow2Add(1, 1);
    Pow2Add(2, 2);
    Pow2Add(4, 4);
    Pow2Add(8, 8);
    Pow2Add(16, 16);
    Pow2Add(32, 32);
  }

  /** Two past a height of 128 or more, the Fibonacci numbers are out of the size_t range. */
  lemma FibPast(h: nat)
    requires h >= 128
    ensures Fib(h + 2) >= SizeLimit
  {
    FibBeyond(64, h);
    Pow2Word();
  }

  /** A height h whose Fibonacci number Fib(h + 2) is below the size_t range is below 128. */
  lemma FibBound(h: nat, x: nat)
    requires Fib(h + 2) <= x < SizeLimit
    ensures h < 128
  {
    if h >= 128 {
      FibPast(h);
    }
  }

  /** A FibHeavy tree whose weight fits in a size_t is less than 128 deep. */
  lemma ShallowRoot(t: Tree)
    requires FibHeavy(t) && t.freq < SizeLimit
    ensures Height(t) < 128
  {
    FibBound(Height(t), t.freq);
  }
}
