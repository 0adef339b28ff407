// Bytes, optional values and the few sequence facts every other module uses.
module Bytes {

  type byte = x: int | 0 <= x < 256

  datatype Option<+T> = None | Some(value: T)

  function Min(a: int, b: int): int {
    if a < b then a else b
  }

  /** `a` with `x` written over the positions from `d` on. */
  function Blit(a: seq<byte>, d: nat, x: seq<byte>): (r: seq<byte>)
    requires d + |x| <= |a|
    ensures |r| == |a|
    ensures r[..d] == a[..d] && r[d..d + |x|] == x && r[d + |x|..] == a[d + |x|..]
  {
    a[..d] + x + a[d + |x|..]
  }

  lemma BlitPrefix(a: seq<byte>, d: nat, x: seq<byte>)
    requires d + |x| <= |a|
    ensures Blit(a, d, x)[..d + |x|] == a[..d] + x
  {
    assert a[..d] + x + a[d + |x|..] == (a[..d] + x) + a[d + |x|..];
  }

  lemma BlitPart(a: seq<byte>, b: seq<byte>, d: nat, x: seq<byte>, n: nat)
    requires d + |x| <= |a| && b == Blit(a, d, x) && n <= |x|
    ensures b[..d + n] == a[..d] + x[..n]
  {
    BlitPrefix(a, d, x);
    assert b[..d + n] == b[..d + |x|][..d + n];
  }

  lemma PrefixOfPrefix(b: seq<byte>, n: nat, m: nat)
    requires n <= m <= |b|
    ensures b[..m][..n] == b[..n]
  {
  }

  lemma SliceOfSlice(b: seq<byte>, lo: nat, hi: nat, n: nat)
    requires lo <= hi <= |b| && n <= hi - lo
    ensures b[lo..hi][..n] == b[lo..lo + n]
  {
  }

  /** `b` differs from `a` at most in the positions from `lo` up to `hi`. */
  ghost predicate Kept(a: seq<byte>, b: seq<byte>, lo: int, hi: int) {
    |a| == |b| && 0 <= lo <= hi <= |a| && a[..lo] == b[..lo] && a[hi..] == b[hi..]
  }

  lemma KeptTwice(a: seq<byte>, b: seq<byte>, c: seq<byte>, lo: int, hi: int, lo2: int, hi2: int)
    requires Kept(a, b, lo, hi) && Kept(b, c, lo2, hi2)
    ensures Kept(a, c, Min(lo, lo2), if hi < hi2 then hi2 else hi)
  {
    var l, h := Min(lo, lo2), if hi < hi2 then hi2 else hi;
    assert a[..l] == a[..lo][..l] == b[..lo2][..l] == c[..l];
    assert a[h..] == a[hi..][h - hi..] == b[hi2..][h - hi2..] == c[h..];
  }

  lemma KeptWider(a: seq<byte>, b: seq<byte>, lo: int, hi: int, lo2: int, hi2: int)
    requires Kept(a, b, lo, hi) && 0 <= lo2 <= lo && hi <= hi2 <= |a|
    ensures Kept(a, b, lo2, hi2)
  {
    assert a[..lo2] == a[..lo][..lo2] == b[..lo2];
    assert a[hi2..] == a[hi..][hi2 - hi..] == b[hi2..];
  }

  lemma KeptOutside(a: seq<byte>, b: seq<byte>, lo: int, hi: int, from: nat, to: nat)
    requires Kept(a, b, lo, hi) && from <= to <= |a| && (to <= lo || hi <= from)
    ensures b[from..to] == a[from..to]
  {
    if to <= lo {
      assert b[from..to] == b[..lo][from..to] == a[..lo][from..to];
    } else {
      assert b[from..to] == b[hi..][from - hi..to - hi] == a[hi..][from - hi..to - hi];
    }
  }

  lemma KeptOutsideBoth(a: seq<byte>, b: seq<byte>, lo: int, hi: int, from: nat, to: nat, from2: nat, to2: nat)
    requires Kept(a, b, lo, hi) && from <= to <= |a| && (to <= lo || hi <= from)
    requires from2 <= to2 <= |a| && (from2 == to2 || to2 <= lo || hi <= from2)
    ensures b[from..to] == a[from..to] && b[from2..to2] == a[from2..to2]
  {
    KeptOutside(a, b, lo, hi, from, to);
    if from2 < to2 {
      KeptOutside(a, b, lo, hi, from2, to2);
    }
  }
}
