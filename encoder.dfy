/*
 * The RRR-set encoder. Each vertex of a set whose code is short enough is
 * packed into a zeroed byte buffer, code after code with no padding
 * between them; every other vertex is copied, in order, into a separate
 * list. encodeRR packs codes of 1 to 19 bits, the later variants codes of
 * 1 to 32 bits; a vertex whose code length is 0 (a vertex outside the
 * tree, or the single leaf of a one-leaf tree) is always copied.
 */
module Encoder {
  import opened BigEndian
  import opened CodeTree
  import opened CodeWord
  import opened BitBuffer
  import opened Counting
  import opened Huffman

  /** The encodeRR limit: codes of fewer than 20 bits are packed. */
  const ShortLimit: nat := 20
  /** The limit of the later variants: codes of at most 32 bits are packed. */
  const WordLimit: nat := 33

  /** The encoder packs v: its code length is nonzero and below the limit. */
  predicate Packs(cout: seq<nat>, limit: nat, v: nat) {
    v < |cout| && 0 < cout[v] < limit
  }

  /** Every vertex of rr is below n: it has an entry in a table of n entries. */
  predicate InRange(rr: seq<nat>, n: nat) {
    forall k :: 0 <= k < |rr| ==> rr[k] < n
  }

  /** The vertices of rr that are packed, in order. */
  function Coded(cout: seq<nat>, limit: nat, rr: seq<nat>): (r: seq<nat>)
    ensures |r| <= |rr|
  {
    if rr == [] then []
    else Coded(cout, limit, rr[..|rr| - 1]) + (if Packs(cout, limit, rr[|rr| - 1]) then [rr[|rr| - 1]] else [])
  }

  /** The vertices of rr that are copied, in order. */
  function Copied(cout: seq<nat>, limit: nat, rr: seq<nat>): (r: seq<nat>)
    ensures |r| <= |rr|
  {
    if rr == [] then []
    else Copied(cout, limit, rr[..|rr| - 1]) + (if Packs(cout, limit, rr[|rr| - 1]) then [] else [rr[|rr| - 1]])
  }

  /** Every vertex of vs has a code of at most 64 bits in the table. */
  predicate Short(vs: seq<nat>, code: seq<bv64>, cout: seq<nat>) {
    forall k :: 0 <= k < |vs| ==> vs[k] < |code| && vs[k] < |cout| && cout[vs[k]] <= 64
  }

  /** The codes of vs, one after the other, as the table gives them. */
  ghost function Packed(code: seq<bv64>, cout: seq<nat>, vs: seq<nat>): seq<bool>
    requires Short(vs, code, cout)
  {
    if vs == [] then []
    else Packed(code, cout, vs[..|vs| - 1]) + Bits(code[vs[|vs| - 1]], cout[vs[|vs| - 1]])
  }

  /** Every packed entry of the table is a clean left-aligned code word. */
  ghost predicate CleanBook(code: seq<bv64>, cout: seq<nat>, limit: nat) {
    |code| == |cout| && forall v :: 0 <= v < |cout| && 0 < cout[v] < limit ==> Clean(code[v], cout[v])
  }

  /**
   * The two lists split rr: together they hold the vertices of rr
   * (Split), the packed ones exactly those the table packs (CodedPacks)
   * and the copied ones exactly the others (CopiedUnpacked).
   */
  lemma {:induction false} Split(cout: seq<nat>, limit: nat, rr: seq<nat>)
    ensures |Coded(cout, limit, rr)| + |Copied(cout, limit, rr)| == |rr|
    ensures multiset(Coded(cout, limit, rr)) + multiset(Copied(cout, limit, rr)) == multiset(rr)
  {
    if rr != [] {
      var front, v := rr[..|rr| - 1], rr[|rr| - 1];
      Split(cout, limit, front);
      assert rr == front + [v];
    }
  }

  lemma {:induction false} CodedPacks(cout: seq<nat>, limit: nat, rr: seq<nat>)
    ensures forall k :: 0 <= k < |Coded(cout, limit, rr)| ==> Packs(cout, limit, Coded(cout, limit, rr)[k])
  {
    if rr != [] {
      CodedPacks(cout, limit, rr[..|rr| - 1]);
    }
  }

  lemma {:induction false} CopiedUnpacked(cout: seq<nat>, limit: nat, rr: seq<nat>)
    ensures forall k :: 0 <= k < |Copied(cout, limit, rr)| ==> !Packs(cout, limit, Copied(cout, limit, rr)[k])
  {
    if rr != [] {
      CopiedUnpacked(cout, limit, rr[..|rr| - 1]);
    }
  }

  /** A packed vertex extends Coded and leaves Copied as it was. */
  lemma StepPacked(cout: seq<nat>, limit: nat, rr: seq<nat>, i: nat, codes: seq<nat>, copies: seq<nat>)
    requires i < |rr| && Packs(cout, limit, rr[i])
    requires codes == Coded(cout, limit, rr[..i]) && copies == Copied(cout, limit, rr[..i])
    ensures codes + [rr[i]] == Coded(cout, limit, rr[..i + 1]) && copies == Copied(cout, limit, rr[..i + 1])
  {
    assert rr[..i + 1][..i] == rr[..i];
  }

  /** A copied vertex extends Copied and leaves Coded as it was. */
  lemma StepCopied(cout: seq<nat>, limit: nat, rr: seq<nat>, i: nat, codes: seq<nat>, copies: seq<nat>)
    requires i < |rr| && !Packs(cout, limit, rr[i])
    requires codes == Coded(cout, limit, rr[..i]) && copies == Copied(cout, limit, rr[..i])
    ensures codes == Coded(cout, limit, rr[..i + 1]) && copies + [rr[i]] == Copied(cout, limit, rr[..i + 1])
  {
    assert rr[..i + 1][..i] == rr[..i];
  }

  /** The packed vertices of rr have codes of at most 64 bits. */
  lemma {:induction false} CodedShort(code: seq<bv64>, cout: seq<nat>, limit: nat, rr: seq<nat>)
    requires |code| == |cout| && limit <= 65
    ensures Short(Coded(cout, limit, rr), code, cout)
  {
    CodedPacks(cout, limit, rr);
  }

  /** Packing one more vertex appends its code. */
  lemma PackedAppend(code: seq<bv64>, cout: seq<nat>, vs: seq<nat>, v: nat)
    requires Short(vs, code, cout) && v < |code| && v < |cout| && cout[v] <= 64
    ensures Short(vs + [v], code, cout)
    ensures Packed(code, cout, vs + [v]) == Packed(code, cout, vs) + Bits(code[v], cout[v])
  {
    assert (vs + [v])[..|vs|] == vs;
  }

  /** Each packed code adds at most 32 bits. */
  lemma {:induction false} PackedLength(code: seq<bv64>, cout: seq<nat>, limit: nat, vs: seq<nat>)
    requires limit <= WordLimit && Short(vs, code, cout) && forall k :: 0 <= k < |vs| ==> Packs(cout, limit, vs[k])
    ensures |Packed(code, cout, vs)| <= 32 * |vs|
  {
    if vs != [] {
      PackedLength(code, cout, limit, vs[..|vs| - 1]);
    }
  }

  /** Eight bytes per vertex leave room for the next code's writes. */
  lemma Room(m: nat, p: nat, lackBits: nat, n: nat, len: nat)
    requires Cursor(m, p, lackBits) && m <= 32 * n && len >= 8 * (n + 1)
    ensures p < len && (lackBits == 0 ==> p + 8 <= len) && (0 < lackBits ==> p + 9 <= len)
  {
  }

  /**
   * The packing branch of the encoder loop: vertex v, whose code the table
   * packs, is written after the bits of the vertices packed so far.
   */
  method PackVertex(code: array<bv64>, cout: array<nat>, ghost C: seq<bv64>, ghost K: seq<nat>, limit: nat, v: nat,
                    out: array<bv8>, p: nat, lackBits: nat, ghost codes: seq<nat>, ghost bits: seq<bool>)
    returns (p': nat, lackBits': nat, byteSize: nat, ghost bits': seq<bool>)
    requires code[..] == C && cout[..] == K && |C| == |K| && limit <= WordLimit && Packs(K, limit, v)
    requires Short(codes, C, K) && bits == Packed(C, K, codes) && |bits| <= 32 * |codes|
    requires Cursor(|bits|, p, lackBits) && out.Length >= 8 * (|codes| + 1)
    requires out as object != code && out as object != cout
    modifies out
    ensures Short(codes + [v], C, K) && bits' == Packed(C, K, codes + [v]) && |bits'| <= 32 * (|codes| + 1)
    ensures Cursor(|bits'|, p', lackBits') && byteSize == ByteCount(|bits'|) - ByteCount(|bits|)
    ensures old(Holds(out[..], bits)) && CleanBook(C, K, limit) ==> Holds(out[..], bits')
  {
    var bitSize := cout[v];
    Room(|bits|, p, lackBits, |codes|, out.Length);
    PackedAppend(C, K, codes, v);
    if CleanBook(C, K, limit) {
      assert Clean(C[v], K[v]);
    }
    p', lackBits', byteSize := PutCode(out, p, lackBits, code[v], bitSize, bits);
    bits' := bits + Bits(code[v], bitSize);
  }

  /**
   * The copy list after some vertices were copied: when copies are kept,
   * cpy starts with them and j counts them; past j it is untouched.
   */
  ghost predicate CopiesKept(s: seq<nat>, s0: seq<nat>, keep: bool, j: nat, copies: seq<nat>) {
    |s| == |s0| && j == (if keep then |copies| else 0) && j <= |s| &&
    (forall k :: j <= k < |s| ==> s[k] == s0[k]) &&
    (keep ==> forall k :: 0 <= k < j ==> s[k] == copies[k])
  }

  /** The copying branch of the encoder loop: vertex v joins the copy list. */
  method CopyVertex(cpy: array<nat>, keep: bool, j: nat, v: nat, ghost cpy0: seq<nat>, ghost copies: seq<nat>)
    returns (j': nat)
    requires CopiesKept(cpy[..], cpy0, keep, j, copies) && |copies| < cpy.Length
    modifies cpy
    ensures CopiesKept(cpy[..], cpy0, keep, j', copies + [v])
  {
    j' := j;
    if keep {
      cpy[j] := v;
      j' := j + 1;
    }
  }

  /**
   * What the packing leaves behind for rr: the packed vertices have codes
   * of at most 64 bits, there are `coded` of them and `copied` others,
   * their codes take `bytes` bytes, and with a clean table the buffer holds
   * exactly those codes followed by zero bits.
   */
  ghost predicate PackedOut(C: seq<bv64>, K: seq<nat>, limit: nat, rr: seq<nat>, s: seq<bv8>,
                            bytes: int, coded: int, copied: int) {
    Short(Coded(K, limit, rr), C, K) &&
    coded == |Coded(K, limit, rr)| && copied == |Copied(K, limit, rr)| && coded + copied == |rr| &&
    bytes == ByteCount(|Packed(C, K, Coded(K, limit, rr))|) &&
    (CleanBook(C, K, limit) ==> Holds(s, Packed(C, K, Coded(K, limit, rr))))
  }

  /**
   * The copy list after the packing of rr: when copies are kept it starts
   * with the copied vertices, in order, and is otherwise as before.
   */
  ghost predicate CopiesOut(K: seq<nat>, limit: nat, rr: seq<nat>, keep: bool, s: seq<nat>, s0: seq<nat>) {
    var copies := Copied(K, limit, rr);
    |s| == |s0| &&
    (keep ==> |copies| <= |s| && s[..|copies|] == copies && s[|copies|..] == s0[|copies|..]) &&
    (!keep ==> s == s0)
  }

  /** At the end of the loop, the kept copies lead the list and the rest is untouched. */
  lemma CopiesKeptDone(K: seq<nat>, limit: nat, rr: seq<nat>, s: seq<nat>, s0: seq<nat>, keep: bool, j: nat)
    requires CopiesKept(s, s0, keep, j, Copied(K, limit, rr))
    ensures CopiesOut(K, limit, rr, keep, s, s0)
  {
    if keep {
      assert s[j..] == s0[j..];
    }
  }

  /** At the end of the loop, the packed bits are those of Coded(K, limit, rr). */
  lemma PackedDone(C: seq<bv64>, K: seq<nat>, limit: nat, rr: seq<nat>, s: seq<bv8>, bits: seq<bool>,
                   bytes: nat, coded: nat, copied: nat)
    requires Short(Coded(K, limit, rr), C, K) && bits == Packed(C, K, Coded(K, limit, rr))
    requires CleanBook(C, K, limit) ==> Holds(s, bits)
    requires bytes == ByteCount(|bits|) && coded == |Coded(K, limit, rr)| && copied == |Copied(K, limit, rr)|
    ensures PackedOut(C, K, limit, rr, s, bytes, coded, copied)
  {
    Split(K, limit, rr);
  }

  /**
   * The encoder's state after the first i vertices of rr: the packed and
   * the copied vertices so far, the packed bits and the write cursor after
   * them, and the three counters.
   */
  ghost predicate Scan(C: seq<bv64>, K: seq<nat>, limit: nat, rr: seq<nat>, i: nat,
                       codes: seq<nat>, copies: seq<nat>, bits: seq<bool>,
                       p: nat, lackBits: nat, encodeSize: nat, codeCnt: nat, copyCnt: nat) {
    i <= |rr| && codes == Coded(K, limit, rr[..i]) && copies == Copied(K, limit, rr[..i]) &&
    Short(codes, C, K) && bits == Packed(C, K, codes) && |bits| <= 32 * |codes| &&
    Cursor(|bits|, p, lackBits) &&
    encodeSize == ByteCount(|bits|) && codeCnt == |codes| && copyCnt == |copies|
  }

  /** The body of the encoder loop: vertex rr[i] is packed or copied. */
  method PackStep(code: array<bv64>, cout: array<nat>, ghost C: seq<bv64>, ghost K: seq<nat>, limit: nat, keep: bool,
                  rr: seq<nat>, i: nat, out: array<bv8>, cpy: array<nat>, ghost cpy0: seq<nat>,
                  p: nat, lackBits: nat, encodeSize: nat, codeCnt: nat, copyCnt: nat, j: nat,
                  ghost codes: seq<nat>, ghost copies: seq<nat>, ghost bits: seq<bool>)
    returns (p': nat, lackBits': nat, encodeSize': nat, codeCnt': nat, copyCnt': nat, j': nat,
             ghost codes': seq<nat>, ghost copies': seq<nat>, ghost bits': seq<bool>)
    requires code[..] == C && cout[..] == K && |C| == |K| && limit <= WordLimit
    requires i < |rr| && InRange(rr, |K|) && out.Length >= 8 * |rr| && |cpy0| >= |rr|
    requires Scan(C, K, limit, rr, i, codes, copies, bits, p, lackBits, encodeSize, codeCnt, copyCnt)
    requires CopiesKept(cpy[..], cpy0, keep, j, copies)
    requires out as object != code && out as object != cout && out as object != cpy
    modifies out, cpy
    ensures Scan(C, K, limit, rr, i + 1, codes', copies', bits', p', lackBits', encodeSize', codeCnt', copyCnt')
    ensures CopiesKept(cpy[..], cpy0, keep, j', copies')
    ensures old(Holds(out[..], bits)) && CleanBook(C, K, limit) ==> Holds(out[..], bits')
  {
    var state := rr[i];
    var bitSize := cout[state];
    if 0 < bitSize < limit {
      StepPacked(K, limit, rr, i, codes, copies);
      var byteSize;
      p', lackBits', byteSize, bits' := PackVertex(code, cout, C, K, limit, state, out, p, lackBits, codes, bits);
      encodeSize', codeCnt', copyCnt', j' := encodeSize + byteSize, codeCnt + 1, copyCnt, j;
      codes', copies' := codes + [state], copies;
    } else {
      StepCopied(K, limit, rr, i, codes, copies);
      p', lackBits', encodeSize', codeCnt', copyCnt' := p, lackBits, encodeSize, codeCnt, copyCnt + 1;
      j' := CopyVertex(cpy, keep, j, state, cpy0, copies);
      codes', copies', bits' := codes, copies + [state], bits;
    }
  }

  /**
   * The encoder loop shared by encodeRR, encodeRR2, encodeRR22 and
   * encodeRR3: each vertex of rr is packed into out when its code length is
   * nonzero and below the limit, and counted in codeCnt; every other vertex
   * is counted in copyCnt and, when copies are kept, appended to cpy.
   * encodeSize counts the bytes the packed bits touch. The buffer must come
   * zeroed, eight bytes per vertex (the callers' allocation).
   */
  method PackSet(code: array<bv64>, cout: array<nat>, rr: seq<nat>, limit: nat, keepCopies: bool,
                 out: array<bv8>, cpy: array<nat>)
    returns (encodeSize: nat, codeCnt: nat, copyCnt: nat)
    requires code.Length == cout.Length && limit <= WordLimit && InRange(rr, cout.Length)
    requires out.Length >= 8 * |rr| && cpy.Length >= |rr|
    requires forall k :: 0 <= k < out.Length ==> out[k] == 0
    requires out as object != code && out as object != cout && out as object != cpy
    requires cpy as object != cout && cpy as object != code
    modifies out, cpy
    ensures PackedOut(code[..], cout[..], limit, rr, out[..], encodeSize, codeCnt, copyCnt)
    ensures CopiesOut(cout[..], limit, rr, keepCopies, cpy[..], old(cpy[..]))
  {
    ghost var C, K := code[..], cout[..];
    ghost var clean := CleanBook(C, K, limit);
    ghost var bits: seq<bool> := [];
    ghost var codes: seq<nat>, copies: seq<nat> := [], [];
    ghost var cpy0 := cpy[..];
    var i: nat, j: nat, p: nat, lackBits: nat := 0, 0, 0, 0;
    encodeSize, codeCnt, copyCnt := 0, 0, 0;
    ZeroHolds(out[..]);
    while i < |rr|
      invariant code[..] == C && cout[..] == K
      invariant Scan(C, K, limit, rr, i, codes, copies, bits, p, lackBits, encodeSize, codeCnt, copyCnt)
      invariant CopiesKept(cpy[..], cpy0, keepCopies, j, copies)
      invariant clean ==> Holds(out[..], bits)
    {
      p, lackBits, encodeSize, codeCnt, copyCnt, j, codes, copies, bits :=
        PackStep(code, cout, C, K, limit, keepCopies, rr, i, out, cpy, cpy0,
                 p, lackBits, encodeSize, codeCnt, copyCnt, j, codes, copies, bits);
      i := i + 1;
    }
    assert rr[..i] == rr;
    CopiesKeptDone(K, limit, rr, cpy[..], cpy0, keepCopies, j);
    PackedDone(C, K, limit, rr, out[..], bits, encodeSize, codeCnt, copyCnt);
  }

  /**
   * The packed bytes fit in half the eight bytes per vertex the callers
   * allocate, and cutting the buffer to them keeps every packed bit.
   */
  lemma PackedPrefix(C: seq<bv64>, K: seq<nat>, limit: nat, rr: seq<nat>, s: seq<bv8>,
                     bytes: nat, coded: nat, copied: nat)
    requires PackedOut(C, K, limit, rr, s, bytes, coded, copied) && limit <= WordLimit
    ensures bytes <= 4 * |rr|
    ensures bytes <= |s| ==> PackedOut(C, K, limit, rr, s[..bytes], bytes, coded, copied)
  {
    var vs := Coded(K, limit, rr);
    CodedPacks(K, limit, rr);
    PackedLength(C, K, limit, vs);
    if CleanBook(C, K, limit) {
      HoldsPrefix(s, Packed(C, K, vs));
    }
  }

  /**
   * A table entry the encoder packs, in the code table of a tree of height
   * below 256, is the vertex's path from the root: the code length is the
   * path's length, the code word starts with the path and is clean after it.
   */
  lemma TableEntry(t: Tree, C: seq<bv64>, K: seq<nat>, limit: nat, v: nat)
    requires CodeTable(t, C, K) && Height(t) < 256 && limit <= WordLimit && Packs(K, limit, v)
    ensures v in Symbols(t) && K[v] == |PathTo(t, v)|
    ensures Bits(C[v], K[v]) == PathTo(t, v) && Clean(C[v], K[v])
  {
    assert v in Symbols(t);
    var q := PathTo(t, v);
    assert K[v] == |q| % 256;
    Below256(|q|);
    assert Prefix64(q) == q;
    FirstWordBits(q);
    WordOfCode(C[v], q);
  }

  lemma Below256(n: nat)
    requires n < 256
    ensures n % 256 == n
  {
  }

  /** A word holding code q left-aligned, zeros after: its first |q| bits are q, and it is clean after them. */
  lemma WordOfCode(w: bv64, q: seq<bool>)
    requires CodeOf(w, q) && |q| <= 64
    ensures Bits(w, |q|) == q && Clean(w, |q|)
  {
  }

  /** The code table of a tree of height below 256 is clean for the encoder. */
  lemma TableClean(t: Tree, C: seq<bv64>, K: seq<nat>, limit: nat)
    requires CodeTable(t, C, K) && Height(t) < 256 && limit <= WordLimit
    ensures CleanBook(C, K, limit)
  {
    forall v | 0 <= v < |K| && 0 < K[v] < limit
      ensures Clean(C[v], K[v])
    {
      TableEntry(t, C, K, limit, v);
    }
  }

  /** The packed bits of vertices the table packs are their paths in the tree, one after the other. */
  lemma {:induction false} PackedIsEncode(t: Tree, C: seq<bv64>, K: seq<nat>, limit: nat, vs: seq<nat>)
    requires CodeTable(t, C, K) && Height(t) < 256 && limit <= WordLimit
    requires forall k :: 0 <= k < |vs| ==> Packs(K, limit, vs[k])
    ensures Short(vs, C, K) && forall k :: 0 <= k < |vs| ==> vs[k] in Symbols(t)
    ensures Packed(C, K, vs) == Encode(t, vs)
  {
    if vs != [] {
      var front, v := vs[..|vs| - 1], vs[|vs| - 1];
      assert forall k :: 0 <= k < |front| ==> front[k] == vs[k];
      PackedIsEncode(t, C, K, limit, front);
      TableEntry(t, C, K, limit, v);
    }
  }

  /**
   * Decode after encode: with the code table of a tree of height below
   * 256, the packed buffer of rr decodes, in `coded` walks from the root,
   * to exactly the packed vertices of rr, in order, and the walks end
   * within the `bytes` bytes the encoder counted.
   */
  lemma PackedDecodes(t: Tree, C: seq<bv64>, K: seq<nat>, limit: nat, rr: seq<nat>, s: seq<bv8>,
                      bytes: nat, coded: nat, copied: nat)
    requires CodeTable(t, C, K) && Height(t) < 256 && limit <= WordLimit
    requires PackedOut(C, K, limit, rr, s, bytes, coded, copied)
    ensures DecodeFrom(t, s, coded).Some? && DecodeFrom(t, s, coded).value.0 == Coded(K, limit, rr)
    ensures DecodeFrom(t, s, coded).value.1 <= 8 * bytes
  {
    var vs := Coded(K, limit, rr);
    CodedPacks(K, limit, rr);
    PackedIsEncode(t, C, K, limit, vs);
    TableClean(t, C, K, limit);
    RoundTrip(t, vs, s);
  }

  /** A one-leaf tree gives every vertex code length 0: the encoder copies the whole set. */
  lemma LeafRootCopiesAll(t: Tree, C: seq<bv64>, K: seq<nat>, limit: nat, rr: seq<nat>)
    requires t.Leaf? && CodeTable(t, C, K)
    ensures Coded(K, limit, rr) == [] && Copied(K, limit, rr) == rr
  {
    forall v | 0 <= v < |K| ensures K[v] == 0 {
      if v in Symbols(t) {
        assert PathTo(t, v) == [];
      }
    }
    NothingPacks(K, limit, rr);
  }

  /** With every code length 0, no vertex is packed and every one is copied. */
  lemma {:induction false} NothingPacks(K: seq<nat>, limit: nat, rr: seq<nat>)
    requires forall v :: 0 <= v < |K| ==> K[v] == 0
    ensures Coded(K, limit, rr) == [] && Copied(K, limit, rr) == rr
  {
    if rr != [] {
      var front, v := rr[..|rr| - 1], rr[|rr| - 1];
      NothingPacks(K, limit, front);
      assert !Packs(K, limit, v);
      assert rr == front + [v];
    }
  }
}
