/*
 * 64-bit words and their bytes, most significant byte first, and the bits
 * of both, most significant bit first: bit 0 of a byte is its 0x80 bit,
 * bit 0 of a word is the top bit of its first byte.
 *
 * Shifting a 64-bit word by an amount held in a variable is written here as
 * that many one-bit shifts (ShiftLeft, ShiftRight); the value is the same
 * as the single shift, and every fact about it follows from the one-bit
 * case, which is proved byte by byte.
 */
module BigEndian {

  /** The low eight bits of `w`: the conversion of a word to an unsigned char. */
  function Low(w: bv64): bv8 {
    (w & 0xFF) as bv8
  }

  /** The eight bytes of `w`, most significant first: byte k is `w >> (56 - 8 * k)` cut to eight bits. */
  function ToBytes(w: bv64): (r: seq<bv8>)
    ensures |r| == 8
  {
    [Low(w >> 56), Low(w >> 48), Low(w >> 40), Low(w >> 32), Low(w >> 24), Low(w >> 16), Low(w >> 8), Low(w)]
  }

  /** Reassembles eight bytes, most significant first, into a word. */
  function FromBytes(b: seq<bv8>): bv64
    requires |b| == 8
  {
    (b[0] as bv64 << 56) | (b[1] as bv64 << 48) | (b[2] as bv64 << 40) | (b[3] as bv64 << 32) |
    (b[4] as bv64 << 24) | (b[5] as bv64 << 16) | (b[6] as bv64 << 8) | b[7] as bv64
  }

  lemma FromToBytes(w: bv64)
    ensures FromBytes(ToBytes(w)) == w
  {
  }

  lemma ToFromBytes(b: seq<bv8>)
    requires |b| == 8
    ensures ToBytes(FromBytes(b)) == b
  {
  }

  /**
   * Writes `num` as eight bytes at b[p..p + 8], most significant first;
   * FromToBytes reads them back as `num`.
   */
  method LongToBytes(b: array<bv8>, p: nat, num: bv64)
    requires p + 8 <= b.Length
    modifies b
    ensures b[p..p + 8] == ToBytes(num)
    ensures forall i :: 0 <= i < b.Length && !(p <= i < p + 8) ==> b[i] == old(b[i])
  {
    StoreBytes(b, p, ToBytes(num));
  }

  /** The eight stores b[p] .. b[p + 7] of a word's bytes. */
  method StoreBytes<T>(b: array<T>, p: nat, s: seq<T>)
    requires |s| == 8 && p + 8 <= b.Length
    modifies b
    ensures b[p..p + 8] == s
    ensures forall i :: 0 <= i < b.Length && !(p <= i < p + 8) ==> b[i] == old(b[i])
  {
    b[p] := s[0];
    b[p + 1] := s[1];
    b[p + 2] := s[2];
    b[p + 3] := s[3];
    b[p + 4] := s[4];
    b[p + 5] := s[5];
    b[p + 6] := s[6];
    b[p + 7] := s[7];
  }

  /**
   * Byte k of `w`, found by shifting a byte at a time: the same byte as
   * ToBytes(w)[k] (BytesOf), in a form whose facts for a symbolic k are
   * cheap to state.
   */
  function ByteOf(w: bv64, k: nat): bv8
    requires k < 8
    decreases 7 - k
  {
    if k == 7 then Low(w) else ByteOf(w >> 8, k + 1)
  }

  lemma BytesOf(w: bv64)
    ensures forall k :: 0 <= k < 8 ==> ToBytes(w)[k] == ByteOf(w, k)
  {
    var b := ToBytes(w);
    forall k | 0 <= k < 8
      ensures b[k] == ByteOf(w, k)
    {
      if k == 0 { Shifted0(w); } else if k == 1 { Shifted1(w); } else if k == 2 { Shifted2(w); }
      else if k == 3 { Shifted3(w); } else if k == 4 { Shifted4(w); } else if k == 5 { Shifted5(w); }
      else if k == 6 { Shifted6(w); }
    }
  }

  /** ByteOf is the byte the source takes with a shift by a constant and a mask. */
  lemma ByteOfShifted(w: bv64)
    ensures ByteOf(w, 0) == Low(w >> 56) && ByteOf(w, 1) == Low(w >> 48)
    ensures ByteOf(w, 2) == Low(w >> 40) && ByteOf(w, 3) == Low(w >> 32)
    ensures ByteOf(w, 4) == Low(w >> 24) && ByteOf(w, 5) == Low(w >> 16)
    ensures ByteOf(w, 6) == Low(w >> 8) && ByteOf(w, 7) == Low(w)
  {
    Shifted0(w); Shifted1(w); Shifted2(w); Shifted3(w); Shifted4(w); Shifted5(w); Shifted6(w);
  }

  // One lemma per byte: each bit-vector fact is then proved on its own, which keeps the solver's work small.
  lemma Shifted0(w: bv64) ensures ByteOf(w, 0) == Low(w >> 56) {}
  lemma Shifted1(w: bv64) ensures ByteOf(w, 1) == Low(w >> 48) {}
  lemma Shifted2(w: bv64) ensures ByteOf(w, 2) == Low(w >> 40) {}
  lemma Shifted3(w: bv64) ensures ByteOf(w, 3) == Low(w >> 32) {}
  lemma Shifted4(w: bv64) ensures ByteOf(w, 4) == Low(w >> 24) {}
  lemma Shifted5(w: bv64) ensures ByteOf(w, 5) == Low(w >> 16) {}
  lemma Shifted6(w: bv64) ensures ByteOf(w, 6) == Low(w >> 8) {}

  lemma {:induction false} ByteOfZero(k: nat)
    requires k < 8
    ensures ByteOf(0, k) == 0
    decreases 7 - k
  {
    if k < 7 {
      ByteOfZero(k + 1);
    }
  }

  /** The mask of bit j of a byte, counting from the most significant. */
  function BitMask(j: nat): bv8
    requires j < 8
  {
    if j == 0 then 0x80 else if j == 1 then 0x40 else if j == 2 then 0x20 else if j == 3 then 0x10
    else if j == 4 then 0x08 else if j == 5 then 0x04 else if j == 6 then 0x02 else 0x01
  }

  /** Bit j of a byte, counting from the most significant. */
  predicate Bit(b: bv8, j: nat)
    requires j < 8
  {
    b & BitMask(j) != 0
  }

  /** Bit j is what the decoder reads with `(b >> (7 - j)) & 1`. */
  lemma BitIsShifted(b: bv8, j: nat)
    requires j < 8
    ensures Bit(b, j) == ((b >> (7 - j)) & 1 == 1)
  {
  }

  /** Bit i of a word, counting from the most significant: bit i % 8 of byte i / 8. */
  predicate WordBit(w: bv64, i: nat)
    requires i < 64
  {
    Bit(ByteOf(w, i / 8), i % 8)
  }

  /** Bit i of a byte buffer, most significant bit of each byte first. */
  predicate BitAt(s: seq<bv8>, i: nat)
    requires i < 8 * |s|
  {
    Bit(s[i / 8], i % 8)
  }

  /** `w << m`, as m one-bit shifts. */
  function ShiftLeft(w: bv64, m: nat): bv64
    decreases m
  {
    if m == 0 then w else ShiftLeft(w << 1, m - 1)
  }

  /** `w >> m`, as m one-bit shifts. */
  function ShiftRight(w: bv64, m: nat): bv64
    decreases m
  {
    if m == 0 then w else ShiftRight(w >> 1, m - 1)
  }

  lemma ByteBitOr(a: bv8, b: bv8, j: nat)
    requires j < 8
    ensures Bit(a | b, j) == (Bit(a, j) || Bit(b, j))
  {
  }

  lemma ByteBitZero(j: nat)
    requires j < 8
    ensures !Bit(0, j)
  {
  }

  lemma WordBitZero(i: nat)
    requires i < 64
    ensures !WordBit(0, i)
  {
    ByteOfZero(i / 8);
    ByteBitZero(i % 8);
  }

  /** Bits are all a byte holds: two bytes with the same bits are equal. */
  lemma ByteBitsEqual(a: bv8, b: bv8)
    requires forall j :: 0 <= j < 8 ==> Bit(a, j) == Bit(b, j)
    ensures a == b
  {
    assert a & 0x80 == b & 0x80 by { assert Bit(a, 0) == Bit(b, 0); }
    assert a & 0x40 == b & 0x40 by { assert Bit(a, 1) == Bit(b, 1); }
    assert a & 0x20 == b & 0x20 by { assert Bit(a, 2) == Bit(b, 2); }
    assert a & 0x10 == b & 0x10 by { assert Bit(a, 3) == Bit(b, 3); }
    assert a & 0x08 == b & 0x08 by { assert Bit(a, 4) == Bit(b, 4); }
    assert a & 0x04 == b & 0x04 by { assert Bit(a, 5) == Bit(b, 5); }
    assert a & 0x02 == b & 0x02 by { assert Bit(a, 6) == Bit(b, 6); }
    assert a & 0x01 == b & 0x01 by { assert Bit(a, 7) == Bit(b, 7); }
  }

  /** The byte after byte k of `w`, or zero past the last one. */
  function Next(w: bv64, k: nat): bv8
    requires k < 8
  {
    if k < 7 then ByteOf(w, k + 1) else 0
  }

  /** The byte before byte k of `w`, or zero before the first one. */
  function Prev(w: bv64, k: nat): bv8
    requires k < 8
  {
    if 0 < k then ByteOf(w, k - 1) else 0
  }

  lemma ShiftLeftByte(w: bv64, k: nat)
    requires k < 8
    ensures ByteOf(w << 1, k) == (ByteOf(w, k) << 1) | (Next(w, k) >> 7)
  {
    if k == 0 { LeftByte0(w); } else if k == 1 { LeftByte1(w); } else if k == 2 { LeftByte2(w); }
    else if k == 3 { LeftByte3(w); } else if k == 4 { LeftByte4(w); } else if k == 5 { LeftByte5(w); }
    else if k == 6 { LeftByte6(w); } else { LeftByte7(w); }
  }

  // One lemma per byte, for the same reason as Shifted0 .. Shifted6.
  lemma LeftByte0(w: bv64) ensures ByteOf(w << 1, 0) == (ByteOf(w, 0) << 1) | (ByteOf(w, 1) >> 7) {}
  lemma LeftByte1(w: bv64) ensures ByteOf(w << 1, 1) == (ByteOf(w, 1) << 1) | (ByteOf(w, 2) >> 7) {}
  lemma LeftByte2(w: bv64) ensures ByteOf(w << 1, 2) == (ByteOf(w, 2) << 1) | (ByteOf(w, 3) >> 7) {}
  lemma LeftByte3(w: bv64) ensures ByteOf(w << 1, 3) == (ByteOf(w, 3) << 1) | (ByteOf(w, 4) >> 7) {}
  lemma LeftByte4(w: bv64) ensures ByteOf(w << 1, 4) == (ByteOf(w, 4) << 1) | (ByteOf(w, 5) >> 7) {}
  lemma LeftByte5(w: bv64) ensures ByteOf(w << 1, 5) == (ByteOf(w, 5) << 1) | (ByteOf(w, 6) >> 7) {}
  lemma LeftByte6(w: bv64) ensures ByteOf(w << 1, 6) == (ByteOf(w, 6) << 1) | (ByteOf(w, 7) >> 7) {}
  lemma LeftByte7(w: bv64) ensures ByteOf(w << 1, 7) == ByteOf(w, 7) << 1 {}

  lemma ShiftRightByte(w: bv64, k: nat)
    requires k < 8
    ensures ByteOf(w >> 1, k) == (ByteOf(w, k) >> 1) | (Prev(w, k) << 7)
  {
    if k == 0 { RightByte0(w); } else if k == 1 { RightByte1(w); } else if k == 2 { RightByte2(w); }
    else if k == 3 { RightByte3(w); } else if k == 4 { RightByte4(w); } else if k == 5 { RightByte5(w); }
    else if k == 6 { RightByte6(w); } else { RightByte7(w); }
  }

  // One lemma per byte, for the same reason as Shifted0 .. Shifted6.
  lemma RightByte0(w: bv64) ensures ByteOf(w >> 1, 0) == ByteOf(w, 0) >> 1 {}
  lemma RightByte1(w: bv64) ensures ByteOf(w >> 1, 1) == (ByteOf(w, 1) >> 1) | (ByteOf(w, 0) << 7) {}
  lemma RightByte2(w: bv64) ensures ByteOf(w >> 1, 2) == (ByteOf(w, 2) >> 1) | (ByteOf(w, 1) << 7) {}
  lemma RightByte3(w: bv64) ensures ByteOf(w >> 1, 3) == (ByteOf(w, 3) >> 1) | (ByteOf(w, 2) << 7) {}
  lemma RightByte4(w: bv64) ensures ByteOf(w >> 1, 4) == (ByteOf(w, 4) >> 1) | (ByteOf(w, 3) << 7) {}
  lemma RightByte5(w: bv64) ensures ByteOf(w >> 1, 5) == (ByteOf(w, 5) >> 1) | (ByteOf(w, 4) << 7) {}
  lemma RightByte6(w: bv64) ensures ByteOf(w >> 1, 6) == (ByteOf(w, 6) >> 1) | (ByteOf(w, 5) << 7) {}
  lemma RightByte7(w: bv64) ensures ByteOf(w >> 1, 7) == (ByteOf(w, 7) >> 1) | (ByteOf(w, 6) << 7) {}

  lemma ByteShiftLeftBit(x: bv8, y: bv8, j: nat)
    requires j < 8
    ensures Bit((x << 1) | (y >> 7), j) == if j < 7 then Bit(x, j + 1) else Bit(y, 0)
  {
  }

  lemma ByteShiftRightBit(x: bv8, y: bv8, j: nat)
    requires j < 8
    ensures Bit((x >> 1) | (y << 7), j) == if 0 < j then Bit(x, j - 1) else Bit(y, 7)
  {
  }

  /** A one-bit left shift moves every bit one place towards the front and clears the last. */
  lemma ShiftLeftOne(w: bv64, i: nat)
    requires i < 64
    ensures WordBit(w << 1, i) == (i < 63 && WordBit(w, i + 1))
  {
    var k := i / 8;
    ShiftLeftByte(w, k);
    ByteShiftLeftBit(ByteOf(w, k), Next(w, k), i % 8);
    if i % 8 < 7 {
      assert (i + 1) / 8 == k && (i + 1) % 8 == i % 8 + 1;
    } else if k < 7 {
      assert (i + 1) / 8 == k + 1 && (i + 1) % 8 == 0;
    } else {
      ByteBitZero(0);
    }
  }

  /** A one-bit right shift moves every bit one place towards the back and clears the first. */
  lemma ShiftRightOne(w: bv64, i: nat)
    requires i < 64
    ensures WordBit(w >> 1, i) == (0 < i && WordBit(w, i - 1))
  {
    var k := i / 8;
    ShiftRightByte(w, k);
    ByteShiftRightBit(ByteOf(w, k), Prev(w, k), i % 8);
    if 0 < i % 8 {
      assert (i - 1) / 8 == k && (i - 1) % 8 == i % 8 - 1;
    } else if 0 < k {
      assert (i - 1) / 8 == k - 1 && (i - 1) % 8 == 7;
    } else {
      ByteBitZero(7);
    }
  }

  lemma {:induction false} ShiftLeftBits(w: bv64, m: nat, i: nat)
    requires i < 64
    ensures WordBit(ShiftLeft(w, m), i) == (i + m < 64 && WordBit(w, i + m))
    decreases m
  {
    if m > 0 {
      ShiftLeftBits(w << 1, m - 1, i);
      if i + m - 1 < 64 {
        ShiftLeftOne(w, i + m - 1);
      }
    }
  }

  lemma {:induction false} ShiftRightBits(w: bv64, m: nat, i: nat)
    requires i < 64
    ensures WordBit(ShiftRight(w, m), i) == (m <= i && WordBit(w, i - m))
    decreases m
  {
    if m > 0 {
      assert ShiftRight(w, m) == ShiftRight(w >> 1, m - 1);
      ShiftRightBits(w >> 1, m - 1, i);
      if m - 1 <= i {
        ShiftRightOne(w, i - (m - 1));
      }
    }
  }

  /** Setting the lowest bit sets bit 63 and leaves the others. */
  lemma OrOne(w: bv64, i: nat)
    requires i < 64
    ensures WordBit(w | 1, i) == (i == 63 || WordBit(w, i))
  {
    if i / 8 < 7 {
      OrOneByte(w, i / 8);
    } else {
      assert ByteOf(w | 1, 7) == ByteOf(w, 7) | 1;
      ByteBitOr(ByteOf(w, 7), 1, i % 8);
    }
  }

  lemma OrOneByte(w: bv64, k: nat)
    requires k < 7
    ensures ByteOf(w | 1, k) == ByteOf(w, k)
  {
    if k == 0 {} else if k == 1 {} else if k == 2 {} else if k == 3 {} else if k == 4 {} else if k == 5 {} else {}
  }
}
