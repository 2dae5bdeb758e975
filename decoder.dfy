/*
 * decode and decodeCheck: the bit-by-bit Huffman decoders. Both read the
 * buffer most significant bit first (bit r of byte i >> 3, read with
 * `(s[byteIndex] >> (7 - r)) & 0x01`), go left on 0 and right on 1, write
 * the symbol of each leaf they reach and start again at the root. A root
 * that is itself a leaf (every vertex of the set was the same) fills the
 * output with its symbol and reads nothing. decodeCheck also stops at the
 * first decoded symbol equal to the target and raises find_flag.
 *
 * Both are proved against CodeTree.DecodeFrom, the walk-and-restart
 * decoding of a buffer, which Encoder.PackedDecodes ties to the packing.
 */
module Decoder {
  import opened BigEndian
  import opened CodeTree

  /** The leaf root decodes every symbol to its own without reading a bit. */
  lemma {:induction false} LeafDecode(c: nat, f: nat, s: seq<bv8>, n: nat)
    ensures DecodeFrom(Leaf(c, f), s, n).Some? && DecodeFrom(Leaf(c, f), s, n).value.1 == 0
    ensures forall k :: 0 <= k < n ==> DecodeFrom(Leaf(c, f), s, n).value.0[k] == c
  {
    if n > 0 {
      LeafDecode(c, f, s, n - 1);
      assert Walk(Leaf(c, f), s, 0) == Some((c, 0));
    }
  }

  /** The leaf-root case: the first n slots of out all get c. */
  method Fill(out: array<nat>, n: nat, c: nat)
    requires n <= out.Length
    modifies out
    ensures forall k :: 0 <= k < n ==> out[k] == c
    ensures out[n..] == old(out[n..])
  {
    var count := 0;
    while count < n
      invariant count <= n && forall k :: 0 <= k < count ==> out[k] == c
      invariant out[n..] == old(out[n..])
    {
      out[count] := c;
      count := count + 1;
    }
  }

  /** Writes the decoded symbol c to slot count, after the symbols decoded so far. */
  method Put(out: array<nat>, count: nat, c: nat)
    requires count < out.Length
    modifies out
    ensures out[..count + 1] == old(out[..count]) + [c]
    ensures out[count + 1..] == old(out[count + 1..])
  {
    out[count] := c;
    assert out[..count + 1] == old(out[..count]) + [c];
  }

  /** The bit the decoders test for position i is BitAt(s, i). */
  lemma ReadBit(s: seq<bv8>, i: nat)
    requires i < 8 * |s|
    ensures BitAt(s, i) == ((s[i / 8] >> (7 - i % 8)) & 1 == 1)
  {
    BitIsShifted(s[i / 8], i % 8);
  }

  /**
   * The state of the decoding loop: the first count symbols are decoded
   * into out and the walk of the next one began at bit start; continuing
   * from node n at bit i ends where that walk ends.
   */
  ghost predicate Walking(t: Tree, s: seq<bv8>, decoded: seq<nat>, start: nat, n: Tree, i: nat) {
    DecodeFrom(t, s, |decoded|) == Some((decoded, start)) && start <= i && n.Inner? &&
    Walk(t, s, start) == Walk(n, s, i)
  }

  /**
   * One bit read at node n: an inner child continues the walk; a leaf
   * child ends it with one more decoded symbol, and the walk of the next
   * one starts at the root from the following bit.
   */
  lemma Advance(t: Tree, s: seq<bv8>, decoded: seq<nat>, start: nat, n: Tree, i: nat)
    requires Walking(t, s, decoded, start, n, i) && i < 8 * |s|
    ensures var child := if BitAt(s, i) then n.right else n.left;
      (child.Inner? ==> Walking(t, s, decoded, start, child, i + 1)) &&
      (child.Leaf? ==> DecodeFrom(t, s, |decoded| + 1) == Some((decoded + [child.c], i + 1))) &&
      (child.Leaf? && t.Inner? ==> Walking(t, s, decoded + [child.c], i + 1, t, i + 1))
  {
    var child := if BitAt(s, i) then n.right else n.left;
    assert Walk(n, s, i) == Walk(child, s, i + 1);
    if child.Leaf? {
      assert Walk(child, s, i + 1) == Some((child.c, i + 1));
    }
  }

  /** One bit read: bit r of byte i >> 3, most significant first; 0 goes left, 1 right. */
  method Child(s: seq<bv8>, i: nat, n: Tree) returns (child: Tree)
    requires i < 8 * |s| && n.Inner?
    ensures child == if BitAt(s, i) then n.right else n.left
  {
    ReadBit(s, i);
    var byteIndex, r := i / 8, i % 8;
    if (s[byteIndex] >> (7 - r)) & 1 == 0 {
      child := n.left;
    } else {
      child := n.right;
    }
  }

  /** While symbols remain to decode, the walk in progress still has a bit to read. */
  lemma BitAvailable(t: Tree, s: seq<bv8>, decoded: seq<nat>, start: nat, n: Tree, i: nat, m: nat)
    requires Walking(t, s, decoded, start, n, i) && |decoded| < m && DecodeFrom(t, s, m).Some?
    ensures i < 8 * |s|
  {
    DecodePrefix(t, s, |decoded| + 1, m);
  }

  /**
   * decode: writes the first targetLength symbols of s into out. The
   * caller passes the code count of an encoded set as targetLength, so s
   * holds that many codes.
   */
  method Decode(s: seq<bv8>, targetLength: nat, t: Tree, out: array<nat>)
    requires targetLength <= out.Length && DecodeFrom(t, s, targetLength).Some?
    modifies out
    ensures out[..targetLength] == DecodeFrom(t, s, targetLength).value.0
    ensures out[targetLength..] == old(out[targetLength..])
  {
    if t.Leaf? {
      Fill(out, targetLength, t.c);
      LeafDecode(t.c, t.freq, s, targetLength);
      return;
    }
    var i, count, n := 0, 0, t;
    ghost var start := 0;
    while count < targetLength
      invariant count <= targetLength && Walking(t, s, out[..count], start, n, i)
      invariant out[targetLength..] == old(out[targetLength..])
      decreases targetLength - count, n
    {
      BitAvailable(t, s, out[..count], start, n, i, targetLength);
      Advance(t, s, out[..count], start, n, i);
      n := Child(s, i, n);
      i := i + 1;
      if n.Leaf? {
        Put(out, count, n.c);
        n, start := t, i;
        count := count + 1;
      }
    }
  }

  /**
   * How many output slots decodeCheck writes: up to and including the
   * first target for an inner root, all of them otherwise.
   */
  function Written(t: Tree, syms: seq<nat>, target: nat): (w: nat)
    ensures w <= |syms|
    ensures t.Inner? && target in syms ==> w > 0 && syms[w - 1] == target && target !in syms[..w - 1]
    ensures !(t.Inner? && target in syms) ==> w == |syms|
  {
    if t.Inner? && target in syms then IndexOf(syms, target) + 1 else |syms|
  }

  /** The first decoded target found while decoding m symbols is the first one of all m. */
  lemma FoundFirst(t: Tree, s: seq<bv8>, decoded: seq<nat>, target: nat, after: nat, m: nat)
    requires DecodeFrom(t, s, |decoded| + 1) == Some((decoded + [target], after)) && target !in decoded
    requires |decoded| < m && DecodeFrom(t, s, m).Some?
    ensures var syms := DecodeFrom(t, s, m).value.0;
      target in syms && IndexOf(syms, target) == |decoded| && syms[..|decoded| + 1] == decoded + [target]
  {
    var syms := DecodeFrom(t, s, m).value.0;
    DecodePrefix(t, s, |decoded| + 1, m);
    assert syms[..|decoded|] == (decoded + [target])[..|decoded|] == decoded;
    FirstIndex(syms, target, |decoded|);
  }

  /**
   * decodeCheck: decode, except that reaching a leaf whose symbol is the
   * target stops the decoding right after writing it and raises find_flag,
   * which is never lowered. A leaf root fills the output as decode does and
   * leaves the flag alone, even when its symbol is the target.
   */
  method DecodeCheck(s: seq<bv8>, targetLength: nat, t: Tree, out: array<nat>, target: nat, findFlag: bool)
    returns (findFlag': bool)
    requires targetLength <= out.Length && DecodeFrom(t, s, targetLength).Some?
    modifies out
    ensures var syms := DecodeFrom(t, s, targetLength).value.0;
      out[..Written(t, syms, target)] == syms[..Written(t, syms, target)] &&
      out[Written(t, syms, target)..] == old(out[Written(t, syms, target)..])
    ensures findFlag' == (findFlag || (t.Inner? && target in DecodeFrom(t, s, targetLength).value.0))
  {
    findFlag' := findFlag;
    if t.Leaf? {
      Fill(out, targetLength, t.c);
      LeafDecode(t.c, t.freq, s, targetLength);
      return;
    }
    var i, count, n := 0, 0, t;
    ghost var start := 0;
    while count < targetLength
      invariant count <= targetLength && Walking(t, s, out[..count], start, n, i)
      invariant target !in out[..count] && out[count..] == old(out[count..])
      decreases targetLength - count, n
    {
      BitAvailable(t, s, out[..count], start, n, i, targetLength);
      Advance(t, s, out[..count], start, n, i);
      n := Child(s, i, n);
      i := i + 1;
      if n.Leaf? {
        ghost var decoded := out[..count];
        assert out[count + 1..] == out[count..][1..] == old(out[count..])[1..] == old(out[count + 1..]);
        Put(out, count, n.c);
        if n.c == target {
          FoundFirst(t, s, decoded, target, i, targetLength);
          assert Written(t, DecodeFrom(t, s, targetLength).value.0, target) == count + 1;
          findFlag' := true;
          return;
        }
        n, start := t, i;
        count := count + 1;
      }
    }
  }
}
