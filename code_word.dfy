/*
 * The first code word of a vertex. The tree walk that builds the code
 * table carries the path taken so far in a 64-bit accumulator, shifting
 * each new bit in at the low end; at a leaf the accumulator is shifted up
 * so that the code starts at the word's most significant bit. Bits are
 * numbered from the most significant one (WordBit).
 */
module CodeWord {
  import opened BigEndian

  /** The word holds the bits of q from its most significant bit down, then zeros. */
  ghost predicate CodeOf(w: bv64, q: seq<bool>) {
    forall i :: 0 <= i < 64 ==> WordBit(w, i) == (i < |q| && q[i])
  }

  /** The part of a path that fits in the first code word. */
  function Prefix64(q: seq<bool>): (r: seq<bool>)
    ensures |r| <= 64 && r <= q
  {
    if |q| <= 64 then q else q[..64]
  }

  /**
   * The tree walk's accumulator: while the path is shorter than 64 bits it
   * sits in the low bits of the word; from 64 bits on the word no longer
   * changes and holds the path's first 64 bits.
   */
  ghost predicate Aligned(w: bv64, path: seq<bool>) {
    if |path| < 64 then
      forall i :: 0 <= i < 64 ==> WordBit(w, i) == (64 - |path| <= i && path[i - (64 - |path|)])
    else
      forall i :: 0 <= i < 64 ==> WordBit(w, i) == path[i]
  }

  /** The walk starts with a zero word and an empty path. */
  lemma AlignedEmpty()
    ensures Aligned(0, [])
  {
    forall i | 0 <= i < 64 ensures !WordBit(0, i) {
      WordBitZero(i);
    }
  }

  /** Going to the left child: shift a 0 bit in at the low end. */
  lemma AlignedLeft(w: bv64, path: seq<bool>)
    requires |path| < 64 && Aligned(w, path)
    ensures Aligned((w << 1) | 0, path + [false])
  {
    var w' := (w << 1) | 0;
    assert w' == w << 1;
    var path' := path + [false];
    var d := 64 - |path|;
    forall i | 0 <= i < 64
      ensures WordBit(w', i) == (if |path'| < 64 then 64 - |path'| <= i && path'[i - (64 - |path'|)] else path'[i])
    {
      ShiftLeftOne(w, i);
      if i < 63 {
        assert WordBit(w, i + 1) == (d <= i + 1 && path[i + 1 - d]);
        if d <= i + 1 {
          assert path'[i + 1 - d] == path[i + 1 - d];
        }
      }
    }
  }

  /** Going to the right child instead: set the bit just shifted in. */
  lemma AlignedRight(w: bv64, path: seq<bool>)
    requires |path| < 64 && Aligned(w, path + [false])
    ensures Aligned(w | 1, path + [true])
  {
    var l, r := path + [false], path + [true];
    var d, w' := 64 - |r|, w | 1;
    forall i | 0 <= i < 64
      ensures WordBit(w', i) == (d <= i && r[i - d])
    {
      OrOne(w, i);
      if i < 63 && d <= i {
        assert l[i - d] == r[i - d];
      }
    }
  }

  /**
   * A path of at most 64 bits, shifted up to the top of the word: the
   * word holds the path from its most significant bit down, then zeros.
   */
  lemma AlignedCode(w: bv64, path: seq<bool>)
    requires |path| <= 64 && Aligned(w, path)
    ensures CodeOf(ShiftLeft(w, 64 - |path|), path)
  {
    var d := 64 - |path|;
    forall i | 0 <= i < 64
      ensures WordBit(ShiftLeft(w, d), i) == (i < |path| && path[i])
    {
      ShiftLeftBits(w, d, i);
      if i + d < 64 && |path| < 64 {
        assert WordBit(w, i + d) == path[i];
      }
    }
  }

  /**
   * The accumulator of the tree walk after the path q of at most 64 bits:
   * each step shifts left by one and ors in the bit taken.
   */
  function Accumulated(q: seq<bool>): bv64
    requires |q| <= 64
  {
    if |q| == 0 then 0
    else (Accumulated(q[..|q| - 1]) << 1) | (if q[|q| - 1] then 1 else 0)
  }

  /** The first code word of a code q: q's first 64 bits shifted up to the top of the word. */
  function FirstWord(q: seq<bool>): bv64 {
    var p := Prefix64(q);
    ShiftLeft(Accumulated(p), 64 - |p|)
  }

  lemma {:induction false} AccumulatedAligned(q: seq<bool>)
    requires |q| <= 64
    ensures Aligned(Accumulated(q), q)
  {
    if |q| == 0 {
      AlignedEmpty();
    } else {
      var path := q[..|q| - 1];
      assert q == path + [q[|q| - 1]];
      AccumulatedAligned(path);
      var w := Accumulated(path);
      AlignedLeft(w, path);
      if q[|q| - 1] {
        AlignedRight((w << 1) | 0, path);
        assert ((w << 1) | 0) | 1 == (w << 1) | 1;
      }
    }
  }

  /** The first code word holds the code's first 64 bits from the most significant bit down, then zeros. */
  lemma FirstWordBits(q: seq<bool>)
    ensures CodeOf(FirstWord(q), Prefix64(q))
  {
    AccumulatedAligned(Prefix64(q));
    AlignedCode(Accumulated(Prefix64(q)), Prefix64(q));
  }
}
