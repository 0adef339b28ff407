/** Copies in fixed-size blocks that may write past the bytes asked for, and the
    copy of an overlapping match built from them. */
module WideCopy {
  import opened Bytes
  import opened BlockFormat

  const INC32: seq<int> := [0, 1, 2, 1, 0, 4, 4, 4]
  const DEC64: seq<int> := [0, 0, 0, -1, -4, 1, 2, 3]

  /** First position not written by a copy of `step`-byte blocks from `d` that
      goes on until it has reached `e`. */
  function WildEnd(d: int, e: int, step: nat): (r: int)
    requires step >= 1
    ensures d + step <= r && e <= r && r < (if e > d then e else d + 1) + step
    decreases e - d
  {
    if e <= d + step then d + step else WildEnd(d + step, e, step)
  }

  /** LZ4_memcpy from the input buffer. */
  method CopyIn(dst: array<byte>, d: nat, src: seq<byte>, s: nat, n: nat)
    requires d + n <= dst.Length && s + n <= |src|
    modifies dst
    ensures dst[..] == Blit(old(dst[..]), d, src[s..s + n])
  {
    forall i | 0 <= i < n {
      dst[d + i] := src[s + i];
    }
    assert dst[..] == Blit(old(dst[..]), d, src[s..s + n]);
  }

  /** LZ4_memcpy inside the output buffer: the two regions must not overlap. */
  method CopyWithin(dst: array<byte>, d: nat, s: nat, n: nat)
    requires s + n <= d && d + n <= dst.Length
    modifies dst
    ensures dst[..] == Blit(old(dst[..]), d, old(dst[s..s + n]))
  {
    forall i | 0 <= i < n {
      dst[d + i] := dst[s + i];
    }
    assert dst[..] == Blit(old(dst[..]), d, old(dst[s..s + n]));
  }

  method CopyIn8(dst: array<byte>, d: nat, src: seq<byte>, s: nat)
    requires d + 8 <= dst.Length && s + 8 <= |src|
    modifies dst
    ensures dst[..d + 8] == old(dst[..d]) + src[s..s + 8]
    ensures dst[d + 8..] == old(dst[d + 8..])
  {
    ghost var a := dst[..];
    CopyIn(dst, d, src, s, 8);
    BlitPrefix(a, d, src[s..s + 8]);
  }

  /** LZ4_wildCopy8 of literals: `len` bytes for sure, up to 8 more written. */
  method WildCopy8In(dst: array<byte>, d0: nat, src: seq<byte>, s0: nat, e: nat)
    requires d0 <= e && WildEnd(d0, e, 8) <= dst.Length
    requires s0 + (WildEnd(d0, e, 8) - d0) <= |src|
    modifies dst
    ensures dst[..e] == old(dst[..d0]) + src[s0..s0 + (e - d0)]
    ensures dst[WildEnd(d0, e, 8)..] == old(dst[WildEnd(d0, e, 8)..])
  {
    ghost var hi := WildEnd(d0, e, 8);
    var d, s := d0, s0;
    CopyIn8(dst, d, src, s);
    d, s := d + 8, s + 8;
    while d < e
      invariant d0 + 8 <= d <= hi && s - s0 == d - d0
      invariant hi == if e <= d then d else WildEnd(d, e, 8)
      invariant dst[..d] == old(dst[..d0]) + src[s0..s]
      invariant dst[hi..] == old(dst[hi..])
    {
      CopyIn8(dst, d, src, s);
      assert src[s0..s] + src[s..s + 8] == src[s0..s + 8];
      d, s := d + 8, s + 8;
    }
    assert dst[..e] == dst[..d][..e];
  }

  /** LZ4_wildCopy32 of literals: two 16-byte copies a round. */
  method WildCopy32In(dst: array<byte>, d0: nat, src: seq<byte>, s0: nat, e: nat)
    requires d0 <= e && WildEnd(d0, e, 32) <= dst.Length
    requires s0 + (WildEnd(d0, e, 32) - d0) <= |src|
    modifies dst
    ensures dst[..e] == old(dst[..d0]) + src[s0..s0 + (e - d0)]
    ensures dst[WildEnd(d0, e, 32)..] == old(dst[WildEnd(d0, e, 32)..])
  {
    ghost var hi := WildEnd(d0, e, 32);
    var d, s := d0, s0;
    CopyIn16x2(dst, d, src, s);
    d, s := d + 32, s + 32;
    while d < e
      invariant d0 + 32 <= d <= hi && s - s0 == d - d0
      invariant hi == if e <= d then d else WildEnd(d, e, 32)
      invariant dst[..d] == old(dst[..d0]) + src[s0..s]
      invariant dst[hi..] == old(dst[hi..])
    {
      CopyIn16x2(dst, d, src, s);
      assert src[s0..s] + src[s..s + 32] == src[s0..s + 32];
      d, s := d + 32, s + 32;
    }
    assert dst[..e] == dst[..d][..e];
  }

  method CopyIn16x2(dst: array<byte>, d: nat, src: seq<byte>, s: nat)
    requires d + 32 <= dst.Length && s + 32 <= |src|
    modifies dst
    ensures dst[..d + 32] == old(dst[..d]) + src[s..s + 32]
    ensures dst[d + 32..] == old(dst[d + 32..])
  {
    CopyIn(dst, d, src, s, 16);
    ghost var mid := dst[..];
    CopyIn(dst, d + 16, src, s + 16, 16);
    assert mid[..d + 16] == old(dst[..d]) + src[s..s + 16];
    assert dst[..d + 32] == mid[..d + 16] + src[s + 16..s + 32];
  }

  // ---------------------------------------------------------------------
  // Match copies. `r` is the ideal output: the bytes already there followed
  // by the byte-by-byte copy of the match, up to the end of the buffer.
  // ---------------------------------------------------------------------

  /** The first `x` bytes of the buffer are as they should be. */
  ghost predicate Agrees(a: seq<byte>, r: seq<byte>, x: int) {
    |a| == |r| && 0 <= x <= |a| && a[..x] == r[..x]
  }

  lemma AgreesLess(a: seq<byte>, r: seq<byte>, x: int, y: int)
    requires Agrees(a, r, x) && 0 <= y <= x
    ensures Agrees(a, r, y)
  {
    assert a[..y] == a[..x][..y];
    assert r[..y] == r[..x][..y];
  }

  lemma AgreesKept(a: seq<byte>, b: seq<byte>, r: seq<byte>, x: int, y: int)
    requires Agrees(a, r, x) && Agrees(b, r, y) && x <= y && a[y..] == b[y..]
    ensures Kept(a, b, x, y)
  {
    AgreesLess(b, r, y, x);
  }

  ghost predicate Repeats(r: seq<byte>, from: int, stride: nat) {
    stride <= from && forall i :: from <= i < |r| ==> r[i] == r[i - stride]
  }

  method CopyStride(dst: array<byte>, d: nat, s: nat, n: nat, ghost r: seq<byte>)
    requires s + n <= d && d + n <= dst.Length
    requires Agrees(dst[..], r, d) && Repeats(r, d, d - s)
    modifies dst
    ensures Agrees(dst[..], r, d + n)
    ensures Kept(old(dst[..]), dst[..], d, d + n)
  {
    CopyWithin(dst, d, s, n);
    forall i | d <= i < d + n ensures dst[i] == r[i] {
      assert dst[i] == dst[d..d + n][i - d] == old(dst[s..s + n])[i - d] == old(dst[..d])[i - (d - s)];
      assert r[i] == r[..d][i - (d - s)];
    }
    assert dst[..d + n] == r[..d + n];
  }

  /** LZ4_wildCopy8 inside the output, at a distance of at least 8. */
  method WildCopy8(dst: array<byte>, d0: nat, s0: nat, e: int, ghost r: seq<byte>)
    requires s0 + 8 <= d0 && WildEnd(d0, e, 8) <= dst.Length
    requires Agrees(dst[..], r, d0) && Repeats(r, d0, d0 - s0)
    modifies dst
    ensures Agrees(dst[..], r, WildEnd(d0, e, 8))
    ensures dst[WildEnd(d0, e, 8)..] == old(dst[WildEnd(d0, e, 8)..])
  {
    ghost var hi := WildEnd(d0, e, 8);
    var d, s := d0, s0;
    CopyStride(dst, d, s, 8, r);
    d, s := d + 8, s + 8;
    while d < e
      invariant d0 + 8 <= d <= hi && s - s0 == d - d0
      invariant hi == if e <= d then d else WildEnd(d, e, 8)
      invariant Agrees(dst[..], r, d)
      invariant dst[hi..] == old(dst[hi..])
    {
      CopyStride(dst, d, s, 8, r);
      d, s := d + 8, s + 8;
    }
  }

  method CopyStride16x2(dst: array<byte>, d: nat, s: nat, ghost r: seq<byte>)
    requires s + 16 <= d && d + 32 <= dst.Length
    requires Agrees(dst[..], r, d) && Repeats(r, d, d - s)
    modifies dst
    ensures Agrees(dst[..], r, d + 32)
    ensures dst[d + 32..] == old(dst[d + 32..])
  {
    CopyStride(dst, d, s, 16, r);
    ghost var mid := dst[..];
    CopyStride(dst, d + 16, s + 16, 16, r);
    assert dst[d + 32..] == mid[d + 16..][16..];
  }

  /** LZ4_wildCopy32 inside the output, at a distance of at least 16. */
  method WildCopy32(dst: array<byte>, d0: nat, s0: nat, e: int, ghost r: seq<byte>)
    requires s0 + 16 <= d0 && WildEnd(d0, e, 32) <= dst.Length
    requires Agrees(dst[..], r, d0) && Repeats(r, d0, d0 - s0)
    modifies dst
    ensures Agrees(dst[..], r, WildEnd(d0, e, 32))
    ensures dst[WildEnd(d0, e, 32)..] == old(dst[WildEnd(d0, e, 32)..])
  {
    ghost var hi := WildEnd(d0, e, 32);
    var d, s := d0, s0;
    CopyStride16x2(dst, d, s, r);
    d, s := d + 32, s + 32;
    while d < e
      invariant d0 + 32 <= d <= hi && s - s0 == d - d0
      invariant hi == if e <= d then d else WildEnd(d, e, 32)
      invariant Agrees(dst[..], r, d)
      invariant dst[hi..] == old(dst[hi..])
    {
      CopyStride16x2(dst, d, s, r);
      d, s := d + 32, s + 32;
    }
  }

  /** The ideal output for a match of offset `off` at `op`. */
  ghost function Ideal(a: seq<byte>, op: nat, off: nat): (r: seq<byte>)
    requires off <= op <= |a|
    ensures |r| == |a| && r[..op] == a[..op]
  {
    Extend(a[..op], off, |a| - op)
  }

  lemma IdealPrefix(a: seq<byte>, b: seq<byte>, op: nat, off: nat, n: nat)
    requires off <= op && op + n <= |a| && Agrees(b, Ideal(a, op, off), op + n)
    ensures b[..op + n] == Extend(a[..op], off, n)
  {
    ExtendMore(a[..op], off, n, |a| - op);
  }

  lemma IdealRepeats(a: seq<byte>, op: nat, off: nat, m: nat, stride: nat, from: nat)
    requires off <= op <= |a| && m >= 1
    requires if off == 0 then stride >= 1 else stride == m * off
    requires op - off + stride <= from && op <= from
    ensures Repeats(Ideal(a, op, off), from, stride)
  {
    ExtendStride(a[..op], off, |a| - op, m, stride);
    ExtendAt(a[..op], off, |a| - op);
  }

  /** The adjustment tables make both distances a multiple of the offset: the one
      for bytes 4 to 7, and the one for all later bytes, which is at least 8. */
  lemma TableDistances(off: nat)
    requires off < 8
    ensures 0 <= INC32[off] <= off && 0 <= off - INC32[off] + DEC64[off]
    ensures var near := [1, 4, 2, 2, 2, 1, 1, 1][off];
            4 + off - INC32[off] >= 4 && (off > 0 ==> 4 + off - INC32[off] == near * off)
    ensures var far := [1, 8, 4, 3, 2, 2, 2, 2][off];
            8 + off - INC32[off] + DEC64[off] >= 8
            && DEC64[off] <= INC32[off]
            && (off > 0 ==> 8 + off - INC32[off] + DEC64[off] == far * off)
  {
  }

  /** Bytes 0 to 3 of a match with a small offset, one by one. */
  method CopyFirstFour(dst: array<byte>, op: nat, match0: nat, off: nat, ghost r: seq<byte>)
    requires off <= op && match0 == op - off && op + 8 <= dst.Length
    requires r == Ideal(dst[..], op, off)
    modifies dst
    ensures Agrees(dst[..], r, op + 4)
    ensures dst[op + 4..] == old(dst[op + 4..])
  {
    ExtendAt(dst[..op], off, dst.Length - op);
    WriteZero32(dst, op);
    ghost var b := dst[..];
    CopyOne(dst, op, match0, off, r);
    CopyOne(dst, op + 1, match0 + 1, off, r);
    CopyOne(dst, op + 2, match0 + 2, off, r);
    CopyOne(dst, op + 3, match0 + 3, off, r);
    assert dst[op + 4..] == b[op + 4..];
  }

  /** LZ4_write32(op, 0) */
  method WriteZero32(dst: array<byte>, op: nat)
    requires op + 4 <= dst.Length
    modifies dst
    ensures dst[op] == dst[op + 1] == dst[op + 2] == dst[op + 3] == 0
    ensures Kept(old(dst[..]), dst[..], op, op + 4)
  {
    forall i | 0 <= i < 4 {
      dst[op + i] := 0;
    }
  }

  /** `*d = *s`; every other byte keeps its value. */
  method CopyOne(dst: array<byte>, d: nat, s: nat, off: nat, ghost r: seq<byte>)
    requires off <= d < dst.Length && s == d - off
    requires Agrees(dst[..], r, d) && r[d] == if off == 0 then dst[d] else r[s]
    modifies dst
    ensures Agrees(dst[..], r, d + 1)
    ensures forall i :: d < i < dst.Length ==> dst[i] == old(dst[i])
  {
    ghost var a := dst[..];
    dst[d] := dst[s];
    assert off > 0 ==> a[s] == a[..d][s] == r[..d][s] == r[s];
    assert dst[..d + 1] == a[..d] + [r[d]];
    assert r[..d + 1] == r[..d] + [r[d]];
  }

  /** Bytes 0 to 7 of a match; returns where to copy the rest from, 8 bytes at a time. */
  method CopyHead(dst: array<byte>, op: nat, match0: nat, off: nat, ghost r: seq<byte>)
    returns (m: nat)
    requires off <= op && match0 == op - off && op + 8 <= dst.Length
    requires r == Ideal(dst[..], op, off)
    modifies dst
    ensures Agrees(dst[..], r, op + 8)
    ensures Kept(old(dst[..]), dst[..], op, op + 8)
    ensures m <= op && Repeats(r, op + 8, op + 8 - m)
  {
    ghost var a := dst[..];
    if off < 8 {
      m := CopyHeadSmall(dst, op, match0, off, r);
    } else {
      IdealRepeats(dst[..], op, off, 1, off, op);
      CopyStride(dst, op, match0, 8, r);
      m := match0 + 8;
    }
    AgreesKept(a, dst[..], r, op, op + 8);
  }

  method CopyHeadSmall(dst: array<byte>, op: nat, match0: nat, off: nat, ghost r: seq<byte>)
    returns (m: nat)
    requires off < 8 && off <= op && match0 == op - off && op + 8 <= dst.Length
    requires r == Ideal(dst[..], op, off)
    modifies dst
    ensures Agrees(dst[..], r, op + 8)
    ensures dst[op + 8..] == old(dst[op + 8..])
    ensures m <= op && Repeats(r, op + 8, op + 8 - m)
  {
    TableDistances(off);
    ghost var near, far := 4 + off - INC32[off], 8 + off - INC32[off] + DEC64[off];
    IdealRepeats(dst[..], op, off, [1, 4, 2, 2, 2, 1, 1, 1][off], near, op + 4);
    IdealRepeats(dst[..], op, off, [1, 8, 4, 3, 2, 2, 2, 2][off], far, op + 8);
    CopyFirstFour(dst, op, match0, off, r);
    m := match0 + INC32[off];
    ghost var b := dst[..];
    CopyStride(dst, op + 4, m, 4, r);
    assert dst[op + 8..] == b[op + 4..][4..];
    m := m - DEC64[off];
  }

  /** LZ4_memcpy_using_offset_base. */
  method MemcpyUsingOffsetBase(dst: array<byte>, op: nat, match0: nat, e: nat, off: nat, ghost r: seq<byte>)
    requires off <= op && match0 == op - off && op + MINMATCH <= e && e + MFLIMIT <= dst.Length
    requires r == Ideal(dst[..], op, off)
    modifies dst
    ensures Agrees(dst[..], r, e)
    ensures dst[e + MFLIMIT..] == old(dst[e + MFLIMIT..])
  {
    ghost var a := dst[..];
    var m := CopyHead(dst, op, match0, off, r);
    ghost var mid := dst[..];
    WildCopy8(dst, op + 8, m, e, r);
    ghost var hi := WildEnd(op + 8, e, 8);
    assert dst[e + MFLIMIT..] == dst[hi..][e + MFLIMIT - hi..];
    assert mid[e + MFLIMIT..] == mid[op + 8..][e + MFLIMIT - (op + 8)..];
    assert a[e + MFLIMIT..] == a[op + 8..][e + MFLIMIT - (op + 8)..];
    assert dst[..e] == dst[..hi][..e];
  }

  method WritePattern(dst: array<byte>, d: nat, v: seq<byte>, ghost r: seq<byte>)
    requires |v| == 8 && d + 8 <= dst.Length
    requires Agrees(dst[..], r, d) && r[d..d + 8] == v
    modifies dst
    ensures Agrees(dst[..], r, d + 8)
    ensures dst[d + 8..] == old(dst[d + 8..])
  {
    CopyIn(dst, d, v, 0, 8);
    assert v[0..8] == v;
    assert dst[..d + 8] == dst[..d] + dst[d..d + 8];
    assert r[..d + 8] == r[..d] + r[d..d + 8];
  }

  /** An 8-byte pattern that repeats the match is the start of the ideal output. */
  lemma {:induction false} PatternIsIdeal(a: seq<byte>, op: nat, off: nat, v: seq<byte>)
    requires off == 1 || off == 2 || off == 4
    requires off <= op && op + 8 <= |a| && |v| == 8
    requires v[..off] == a[op - off..op]
    requires forall k {:trigger v[k]} :: 0 <= k < 8 - off ==> v[k + off] == v[k]
    ensures Ideal(a, op, off)[op..op + 8] == v
  {
    var r := Ideal(a, op, off);
    var x := r[op..op + 8];
    ExtendAt(a[..op], off, |a| - op);
    forall k | 0 <= k < off ensures x[k] == v[k] {
      assert v[k] == v[..off][k] == a[op - off..op][k] == r[..op][op - off + k];
    }
    assert x[..off] == v[..off];
    forall k {:trigger x[k]} | 0 <= k < 8 - off ensures x[k + off] == x[k] {
      assert r[op + k + off] == r[op + k];
    }
    PatternFrom(x, v, off);
  }

  lemma PatternFrom(x: seq<byte>, v: seq<byte>, off: nat)
    requires off == 1 || off == 2 || off == 4
    requires |x| == |v| == 8 && x[..off] == v[..off]
    requires forall k {:trigger x[k]} :: 0 <= k < 8 - off ==> x[k + off] == x[k]
    requires forall k {:trigger v[k]} :: 0 <= k < 8 - off ==> v[k + off] == v[k]
    ensures x == v
  {
    assert x[0] == x[..off][0] == v[..off][0] == v[0];
    assert off >= 2 ==> x[1] == x[..off][1] == v[..off][1] == v[1];
    assert off >= 4 ==> x[2] == x[..off][2] == v[..off][2] == v[2] && x[3] == x[..off][3] == v[..off][3] == v[3];
    assert x[1] == v[1];
    assert x[2] == v[2];
    assert x[3] == v[3];
    assert x[4] == v[4];
    assert x[5] == v[5];
    assert x[6] == v[6];
    assert x[7] == v[7];
  }

  /** The pattern of LZ4_memcpy_using_offset, for the offsets that have one. */
  method BuildPattern(dst: array<byte>, match0: nat, off: nat) returns (v: seq<byte>)
    requires off == 1 || off == 2 || off == 4
    requires match0 + off <= dst.Length
    ensures |v| == 8 && v[..off] == dst[match0..match0 + off]
    ensures forall k {:trigger v[k]} :: 0 <= k < 8 - off ==> v[k + off] == v[k]
  {
    if off == 1 {
      var b := dst[match0];
      v := [b, b, b, b, b, b, b, b];
    } else if off == 2 {
      v := dst[match0..match0 + 2];
      v := v + dst[match0..match0 + 2];
      v := v + v[..4];
    } else {
      v := dst[match0..match0 + 4];
      v := v + dst[match0..match0 + 4];
    }
  }

  /** LZ4_memcpy_using_offset: offsets 1, 2 and 4 fill with an 8-byte pattern. */
  method MemcpyUsingOffset(dst: array<byte>, op: nat, match0: nat, e: nat, off: nat, ghost r: seq<byte>)
    requires off <= op && match0 == op - off && op + MINMATCH <= e && e + MFLIMIT <= dst.Length
    requires r == Ideal(dst[..], op, off)
    modifies dst
    ensures Agrees(dst[..], r, e)
    ensures dst[e + MFLIMIT..] == old(dst[e + MFLIMIT..])
  {
    if off == 1 || off == 2 || off == 4 {
      var v := BuildPattern(dst, match0, off);
      PatternIsIdeal(dst[..], op, off, v);
      IdealRepeats(dst[..], op, off, 8 / off, 8, op + 8);
      FillPattern(dst, op, e, v, r);
    } else {
      MemcpyUsingOffsetBase(dst, op, match0, e, off, r);
    }
  }

  method FillPattern(dst: array<byte>, op: nat, e: nat, v: seq<byte>, ghost r: seq<byte>)
    requires op + MINMATCH <= e && e + MFLIMIT <= dst.Length && |v| == 8
    requires Agrees(dst[..], r, op) && r[op..op + 8] == v && Repeats(r, op + 8, 8)
    modifies dst
    ensures Agrees(dst[..], r, e)
    ensures dst[e + MFLIMIT..] == old(dst[e + MFLIMIT..])
  {
    var d := op;
    WritePattern(dst, d, v, r);
    assert dst[e + 8..] == dst[op + 8..][e - op..] == old(dst[op + 8..])[e - op..];
    d := d + 8;
    while d < e
      invariant op + 8 <= d < e + 8
      invariant Agrees(dst[..], r, d) && r[d - 8..d] == v
      invariant dst[e + 8..] == old(dst[e + 8..])
    {
      forall k | 0 <= k < 8 ensures r[d..d + 8][k] == v[k] {
        assert r[d + k] == r[d - 8..d][k];
      }
      ghost var mid := dst[..];
      WritePattern(dst, d, v, r);
      assert dst[e + 8..] == dst[d + 8..][e - d..] == mid[d + 8..][e - d..];
      d := d + 8;
    }
    assert dst[..e] == dst[..d][..e];
    assert dst[e + MFLIMIT..] == dst[e + 8..][4..] == old(dst[e + 8..])[4..];
  }
}
