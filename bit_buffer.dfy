/*
 * The encoder's output buffer: a zeroed byte array filled with code bits
 * from its first bit on, most significant bit of each byte first. The
 * encoder tracks the end of the bits with a byte pointer `p` and
 * `lackBits`, the number of bits still free in byte p when that byte is
 * partly filled (0 when the next bit starts a fresh byte).
 */
module BitBuffer {
  import opened BigEndian
  import opened CodeTree

  /** The first n bits of the code word w, most significant first. */
  ghost function Bits(w: bv64, n: nat): (r: seq<bool>)
    requires n <= 64
    ensures |r| == n
  {
    seq(n, i requires 0 <= i < n => WordBit(w, i))
  }

  /** Every bit of w from bit n on is zero: w is a left-aligned code word of n bits. */
  ghost predicate Clean(w: bv64, n: nat) {
    forall i :: n <= i < 64 ==> !WordBit(w, i)
  }

  /** s holds `bits` from its first bit on, and zeros after them. */
  ghost predicate Holds(s: seq<bv8>, bits: seq<bool>) {
    BitsFrom(s, 0, bits) && forall i :: |bits| <= i < 8 * |s| ==> !BitAt(s, i)
  }

  /** p and lackBits mark the end of the first n bits. */
  predicate Cursor(n: nat, p: nat, lackBits: nat) {
    p == n / 8 && lackBits == (8 - n % 8) % 8
  }

  /** The number of bytes n bits touch. */
  function ByteCount(n: nat): nat {
    (n + 7) / 8
  }

  /** The source's byte count of n bits: `n % 8 == 0 ? n / 8 : n / 8 + 1`. */
  function ByteSize(n: nat): (r: nat)
    ensures r == ByteCount(n)
  {
    if n % 8 == 0 then n / 8 else n / 8 + 1
  }

  /**
   * The cursor and the bytes after n more bits, in the three cases of the
   * encoder: at a byte boundary; when the partly filled byte overflows;
   * when the bits fit in it.
   */
  lemma CursorStep(m: nat, n: nat, p: nat, lackBits: nat)
    requires Cursor(m, p, lackBits)
    ensures lackBits < 8 && (lackBits == 0 ==> m == 8 * p) && (0 < lackBits ==> m == 8 * p + 8 - lackBits)
    ensures lackBits == 0 ==> Cursor(m + n, p + n / 8, if n % 8 == 0 then 0 else 8 - n % 8)
    ensures 0 < lackBits < n ==>
      Cursor(m + n, p + 1 + (n - lackBits) / 8, if (n - lackBits) % 8 == 0 then 0 else 8 - (n - lackBits) % 8)
    ensures 0 < lackBits && n <= lackBits ==> Cursor(m + n, if lackBits == n then p + 1 else p, lackBits - n)
    ensures lackBits == 0 ==> ByteCount(m + n) == ByteCount(m) + ByteSize(n)
    ensures 0 < lackBits < n ==> ByteCount(m + n) == ByteCount(m) + ByteSize(n - lackBits)
    ensures 0 < lackBits && n <= lackBits ==> ByteCount(m + n) == ByteCount(m)
  {
    CursorEnd(m, p, lackBits);
    if lackBits == 0 {
      CursorAligned(p, n);
    } else if lackBits < n {
      CursorOverflow(p, n, lackBits);
    } else {
      CursorFits(p, n, lackBits);
    }
  }

  /** Where the first m bits end: byte p, with lackBits bits free in it. */
  lemma CursorEnd(m: nat, p: nat, lackBits: nat)
    requires Cursor(m, p, lackBits)
    ensures lackBits < 8 && (lackBits == 0 ==> m == 8 * p) && (0 < lackBits ==> m == 8 * p + 8 - lackBits)
  {
  }

  /** n bits after a byte boundary. */
  lemma CursorAligned(p: nat, n: nat)
    ensures Cursor(8 * p + n, p + n / 8, if n % 8 == 0 then 0 else 8 - n % 8)
    ensures ByteCount(8 * p + n) == p + ByteSize(n)
  {
    Shift8(p, n);
    Shift8(p, n + 7);
  }

  /** n bits overflowing the lackBits free bits of byte p. */
  lemma CursorOverflow(p: nat, n: nat, lackBits: nat)
    requires 0 < lackBits < 8 && lackBits < n
    ensures Cursor(8 * p + 8 - lackBits + n, p + 1 + (n - lackBits) / 8, if (n - lackBits) % 8 == 0 then 0 else 8 - (n - lackBits) % 8)
    ensures ByteCount(8 * p + 8 - lackBits + n) == ByteCount(8 * p + 8 - lackBits) + ByteSize(n - lackBits)
  {
    var r := n - lackBits;
    assert 8 * p + 8 - lackBits + n == 8 * (p + 1) + r;
    Shift8(p + 1, r);
    Shift8(p + 1, r + 7);
    assert ByteCount(8 * (p + 1) + r) == p + 1 + ByteSize(r);
    Shift8(p, 15 - lackBits);
    assert ByteCount(8 * p + 8 - lackBits) == p + 1;
  }

  /** n bits fitting in the lackBits free bits of byte p. */
  lemma CursorFits(p: nat, n: nat, lackBits: nat)
    requires 0 < lackBits < 8 && n <= lackBits
    ensures Cursor(8 * p + 8 - lackBits + n, if lackBits == n then p + 1 else p, lackBits - n)
    ensures ByteCount(8 * p + 8 - lackBits + n) == ByteCount(8 * p + 8 - lackBits)
  {
    Shift8(p, 8 - lackBits + n);
    Shift8(p, 8 - lackBits + n + 7);
    Shift8(p, 8 - lackBits + 7);
  }

  /** Adding whole bytes to a bit count moves its byte and keeps its offset. */
  lemma Shift8(k: nat, q: nat)
    ensures (8 * k + q) / 8 == k + q / 8 && (8 * k + q) % 8 == q % 8
  {
  }

  /** An all-zero buffer holds no bits. */
  lemma ZeroHolds(s: seq<bv8>)
    requires forall k :: 0 <= k < |s| ==> s[k] == 0
    ensures Holds(s, [])
  {
    forall i | 0 <= i < 8 * |s|
      ensures !BitAt(s, i)
    {
      ByteBitZero(i % 8);
    }
  }

  /** The first ByteCount(|bits|) bytes of a buffer still hold its bits. */
  lemma HoldsPrefix(s: seq<bv8>, bits: seq<bool>)
    requires Holds(s, bits)
    ensures ByteCount(|bits|) <= |s| && Holds(s[..ByteCount(|bits|)], bits)
  {
    var t := s[..ByteCount(|bits|)];
    forall i | 0 <= i < 8 * |t|
      ensures BitAt(t, i) == BitAt(s, i)
    {
      assert t[i / 8] == s[i / 8];
    }
  }

  /** The bits of s after writing the eight bytes of w at byte p. */
  lemma WroteWord(s0: seq<bv8>, s1: seq<bv8>, p: nat, w: bv64)
    requires |s1| == |s0| && p + 8 <= |s0|
    requires s1[p..p + 8] == ToBytes(w)
    requires forall k :: 0 <= k < |s0| && !(p <= k < p + 8) ==> s1[k] == s0[k]
    ensures forall i :: 0 <= i < 8 * |s1| ==>
      BitAt(s1, i) == if 8 * p <= i < 8 * p + 64 then WordBit(w, i - 8 * p) else BitAt(s0, i)
  {
    BytesOf(w);
    forall i | 0 <= i < 8 * |s1|
      ensures BitAt(s1, i) == if 8 * p <= i < 8 * p + 64 then WordBit(w, i - 8 * p) else BitAt(s0, i)
    {
      if 8 * p <= i < 8 * p + 64 {
        var d := i - 8 * p;
        assert i / 8 == p + d / 8 && i % 8 == d % 8;
        assert s1[p + d / 8] == s1[p..p + 8][d / 8];
      } else {
        assert !(p <= i / 8 < p + 8);
      }
    }
  }

  /** The bits of s after OR-ing y into byte p. */
  lemma OredByte(s0: seq<bv8>, s1: seq<bv8>, p: nat, y: bv8)
    requires p < |s0| && s1 == s0[p := s0[p] | y]
    ensures forall i :: 0 <= i < 8 * |s1| ==>
      BitAt(s1, i) == if 8 * p <= i < 8 * p + 8 then BitAt(s0, i) || Bit(y, i - 8 * p) else BitAt(s0, i)
  {
    forall i | 0 <= i < 8 * |s1|
      ensures BitAt(s1, i) == if 8 * p <= i < 8 * p + 8 then BitAt(s0, i) || Bit(y, i - 8 * p) else BitAt(s0, i)
    {
      if 8 * p <= i < 8 * p + 8 {
        assert i / 8 == p && i % 8 == i - 8 * p;
        ByteBitOr(s0[p], y, i % 8);
      }
    }
  }

  /** `(unsigned char)(w >> (64 - L))` holds the top L bits of w in its low L bits. */
  lemma HighBits(w: bv64, lack: nat, j: nat)
    requires 0 < lack < 8 && j < 8
    ensures Bit(Low(ShiftRight(w, 64 - lack)), j) == (8 - lack <= j && WordBit(w, j - (8 - lack)))
  {
    var x := ShiftRight(w, 64 - lack);
    ShiftRightBits(w, 64 - lack, 56 + j);
    assert WordBit(x, 56 + j) == Bit(ByteOf(x, 7), j);
  }

  /**
   * Bit i of s is bit i of `bits` before their end and bit i - |bits| of w
   * after it (zero past the word's 64 bits).
   */
  ghost predicate Then(s: seq<bv8>, bits: seq<bool>, w: bv64) {
    forall i :: 0 <= i < 8 * |s| ==>
      BitAt(s, i) == if i < |bits| then bits[i] else i - |bits| < 64 && WordBit(w, i - |bits|)
  }

  lemma ThenHolds(s: seq<bv8>, bits: seq<bool>, w: bv64, n: nat)
    requires Then(s, bits, w) && n <= 64 && Clean(w, n) && |bits| + n <= 8 * |s|
    ensures Holds(s, bits + Bits(w, n))
  {
    var b := bits + Bits(w, n);
    forall j | 0 <= j < |b|
      ensures BitAt(s, j) == b[j]
    {
      if j >= |bits| {
        assert b[j] == Bits(w, n)[j - |bits|];
      }
    }
    forall i | |b| <= i < 8 * |s|
      ensures !BitAt(s, i)
    {
    }
  }

  /** Writing w at a byte boundary appends its bits. */
  lemma AlignedThen(s0: seq<bv8>, s1: seq<bv8>, bits: seq<bool>, p: nat, w: bv64)
    requires Holds(s0, bits) && |bits| == 8 * p && |s1| == |s0|
    requires forall i :: 0 <= i < 8 * |s1| ==>
      BitAt(s1, i) == if 8 * p <= i < 8 * p + 64 then WordBit(w, i - 8 * p) else BitAt(s0, i)
    ensures Then(s1, bits, w)
  {
  }

  /** OR-ing the top lack bits of w into the partly filled byte p appends them. */
  lemma OredThen(s0: seq<bv8>, s1: seq<bv8>, bits: seq<bool>, p: nat, lack: nat, w: bv64)
    requires Holds(s0, bits) && 0 < lack < 8 && |bits| == 8 * p + 8 - lack && |s1| == |s0|
    requires forall i :: 0 <= i < 8 * |s1| ==>
      BitAt(s1, i) == if 8 * p <= i < 8 * p + 8 then BitAt(s0, i) || Bit(Low(ShiftRight(w, 64 - lack)), i - 8 * p) else BitAt(s0, i)
    ensures forall i :: 0 <= i < 8 * |s1| && i < 8 * p + 8 ==>
      BitAt(s1, i) == if i < |bits| then bits[i] else WordBit(w, i - |bits|)
    ensures forall i :: 8 * p + 8 <= i < 8 * |s1| ==> !BitAt(s1, i)
  {
    forall i | 0 <= i < 8 * |s1| && 8 * p <= i < 8 * p + 8
      ensures BitAt(s1, i) == if i < |bits| then bits[i] else WordBit(w, i - |bits|)
    {
      HighBits(w, lack, i - 8 * p);
    }
  }

  /** The rest of w, shifted up by lack and written from byte p + 1, follows. */
  lemma SpillThen(s1: seq<bv8>, s2: seq<bv8>, bits: seq<bool>, p: nat, lack: nat, w: bv64)
    requires 0 < lack < 8 && |bits| == 8 * p + 8 - lack && |s2| == |s1|
    requires forall i :: 0 <= i < 8 * |s1| && i < 8 * p + 8 ==>
      BitAt(s1, i) == if i < |bits| then bits[i] else WordBit(w, i - |bits|)
    requires forall i :: 8 * p + 8 <= i < 8 * |s1| ==> !BitAt(s1, i)
    requires forall i :: 0 <= i < 8 * |s2| ==>
      BitAt(s2, i) == if 8 * p + 8 <= i < 8 * p + 72 then WordBit(ShiftLeft(w, lack), i - 8 * p - 8) else BitAt(s1, i)
    ensures Then(s2, bits, w)
  {
    forall i | 0 <= i < 8 * |s2| && 8 * p + 8 <= i < 8 * p + 72
      ensures BitAt(s2, i) == (i - |bits| < 64 && WordBit(w, i - |bits|))
    {
      ShiftLeftBits(w, lack, i - 8 * p - 8);
    }
  }

  /** When the code fits in byte p, nothing follows it. */
  lemma FitThen(s1: seq<bv8>, bits: seq<bool>, p: nat, lack: nat, w: bv64, n: nat)
    requires 0 < n <= lack < 8 && |bits| == 8 * p + 8 - lack && Clean(w, n)
    requires forall i :: 0 <= i < 8 * |s1| && i < 8 * p + 8 ==>
      BitAt(s1, i) == if i < |bits| then bits[i] else WordBit(w, i - |bits|)
    requires forall i :: 8 * p + 8 <= i < 8 * |s1| ==> !BitAt(s1, i)
    ensures Then(s1, bits, w)
  {
  }

  /**
   * Appends the first n bits of the left-aligned code word w, as the
   * encoder's loop body does for one vertex. At a byte boundary the word's
   * eight bytes are written at p; otherwise its top lackBits bits are
   * OR-ed into byte p and, when bits are left over, the word shifted up by
   * lackBits is written from byte p + 1 on. The byte count is what the
   * source adds to encodeSize. The buffer holds the new bits only when the
   * word is zero past its n bits: the writes copy the whole word.
   */
  method PutCode(out: array<bv8>, p: nat, lackBits: nat, w: bv64, n: nat, ghost bits: seq<bool>)
    returns (p': nat, lackBits': nat, byteSize: nat)
    requires 0 < n <= 64 && Cursor(|bits|, p, lackBits)
    requires p < out.Length && (lackBits == 0 ==> p + 8 <= out.Length) && (0 < lackBits < n ==> p + 9 <= out.Length)
    modifies out
    ensures Cursor(|bits| + n, p', lackBits')
    ensures byteSize == ByteCount(|bits| + n) - ByteCount(|bits|)
    ensures old(Holds(out[..], bits)) && Clean(w, n) ==> Holds(out[..], bits + Bits(w, n))
  {
    ghost var held := Holds(out[..], bits);
    CursorEnd(|bits|, p, lackBits);
    if lackBits == 0 {
      PutAligned(out, p, w, bits);
    } else {
      PutPartial(out, p, lackBits, w, n, bits);
    }
    p', lackBits', byteSize := NextCursor(|bits|, n, p, lackBits);
    if held && Clean(w, n) {
      ThenHolds(out[..], bits, w, n);
    }
  }

  /** The encoder's new p and lackBits after n more bits, and the bytes it counts for them. */
  method NextCursor(ghost m: nat, n: nat, p: nat, lackBits: nat) returns (p': nat, lackBits': nat, byteSize: nat)
    requires Cursor(m, p, lackBits)
    ensures Cursor(m + n, p', lackBits')
    ensures byteSize == ByteCount(m + n) - ByteCount(m)
  {
    CursorStep(m, n, p, lackBits);
    if lackBits == 0 {
      p', lackBits' := p + n / 8, if n % 8 == 0 then 0 else 8 - n % 8;
      byteSize := ByteSize(n);
    } else if lackBits < n {
      var rest := n - lackBits;
      p', lackBits' := p + 1 + rest / 8, if rest % 8 == 0 then 0 else 8 - rest % 8;
      byteSize := ByteSize(rest);
    } else {
      lackBits' := lackBits - n;
      p' := if lackBits' == 0 then p + 1 else p;
      byteSize := 0;
    }
  }

  /** The lackBits == 0 case: the word's eight bytes at p. */
  method PutAligned(out: array<bv8>, p: nat, w: bv64, ghost bits: seq<bool>)
    requires |bits| == 8 * p && p + 8 <= out.Length
    modifies out
    ensures old(Holds(out[..], bits)) ==> Then(out[..], bits, w)
  {
    ghost var s0 := out[..];
    LongToBytes(out, p, w);
    if Holds(s0, bits) {
      WroteWord(s0, out[..], p, w);
      AlignedThen(s0, out[..], bits, p, w);
    }
  }

  /** The lackBits > 0 case: OR into byte p, then the rest from byte p + 1 when it does not fit. */
  method PutPartial(out: array<bv8>, p: nat, lackBits: nat, w: bv64, n: nat, ghost bits: seq<bool>)
    requires 0 < n <= 64 && 0 < lackBits < 8 && |bits| == 8 * p + 8 - lackBits
    requires p < out.Length && (lackBits < n ==> p + 9 <= out.Length)
    modifies out
    ensures old(Holds(out[..], bits)) && Clean(w, n) ==> Then(out[..], bits, w)
  {
    ghost var s0 := out[..];
    var y := Low(ShiftRight(w, 64 - lackBits));
    out[p] := out[p] | y;
    ghost var s1 := out[..];
    if lackBits < n {
      LongToBytes(out, p + 1, ShiftLeft(w, lackBits));
      if Holds(s0, bits) {
        OredByte(s0, s1, p, y);
        OredThen(s0, s1, bits, p, lackBits, w);
        WroteWord(s1, out[..], p + 1, ShiftLeft(w, lackBits));
        SpillThen(s1, out[..], bits, p, lackBits, w);
      }
    } else if Holds(s0, bits) && Clean(w, n) {
      OredByte(s0, s1, p, y);
      OredThen(s0, s1, bits, p, lackBits, w);
      FitThen(s1, bits, p, lackBits, w, n);
    }
  }
}
