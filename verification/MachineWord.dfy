/** Little-endian machine words of memory, and the index of the first byte in
    which two of them differ, computed from their exclusive or. */
module MachineWord {
  import opened Bytes

  /** LZ4_read_ARCH: the first byte is the lowest. */
  function ReadArch(s: seq<byte>): nat {
    if s == [] then 0 else s[0] + 256 * ReadArch(s[1..])
  }

  /** The exclusive or of two words, bit by bit. */
  function Xor(u: nat, v: nat): nat
    decreases u + v
  {
    if u == 0 && v == 0 then 0
    else (if u % 2 == v % 2 then 0 else 1) + 2 * Xor(u / 2, v / 2)
  }

  /** The number of zero bits below the lowest set bit. */
  function TrailingZeros(x: nat): nat
    requires x != 0
  {
    if x % 2 == 1 then 0 else 1 + TrailingZeros(x / 2)
  }

  /** LZ4_NbCommonBytes on a little-endian machine. */
  function NbCommonBytes(val: nat): nat
    requires val != 0
  {
    TrailingZeros(val) / 8
  }

  lemma Halve(b: nat, h: nat)
    requires b < 2
    ensures (b + 2 * h) / 2 == h && (b + 2 * h) % 2 == b
  {
  }

  lemma HalveBack(u: nat, v: nat)
    ensures u == v <==> u / 2 == v / 2 && u % 2 == v % 2
  {
    assert u == 2 * (u / 2) + u % 2;
    assert v == 2 * (v / 2) + v % 2;
  }

  lemma {:induction false} XorZero(u: nat, v: nat)
    ensures Xor(u, v) == 0 <==> u == v
    decreases u + v
  {
    if u != 0 || v != 0 {
      XorZero(u / 2, v / 2);
      HalveBack(u, v);
    }
  }

  /** The lowest bit in which two words differ. */
  lemma {:induction false} LowestDifference(u: nat, v: nat)
    requires u != v
    ensures Xor(u, v) != 0
    ensures u % 2 != v % 2 ==> TrailingZeros(Xor(u, v)) == 0
    ensures u % 2 == v % 2 ==>
              && u / 2 != v / 2 && Xor(u / 2, v / 2) != 0
              && TrailingZeros(Xor(u, v)) == 1 + TrailingZeros(Xor(u / 2, v / 2))
  {
    XorZero(u, v);
    XorZero(u / 2, v / 2);
    HalveBack(u, v);
    Halve(if u % 2 == v % 2 then 0 else 1, Xor(u / 2, v / 2));
  }

  /** `x` consists of the `k` low bits of `a`, below `u`. */
  predicate Splits(k: nat, a: nat, x: nat, u: nat) {
    if k == 0 then a == 0 && x == u
    else x % 2 == a % 2 && Splits(k - 1, a / 2, x / 2, u)
  }

  /** The lowest difference of two words lies in the low bits, or above them. */
  lemma {:induction false} DifferenceAbove(k: nat, a: nat, b: nat, x: nat, y: nat, u: nat, v: nat)
    requires Splits(k, a, x, u) && Splits(k, b, y, v) && x != y
    ensures Xor(x, y) != 0
    ensures a != b ==> TrailingZeros(Xor(x, y)) < k
    ensures a == b ==> Xor(u, v) != 0 && TrailingZeros(Xor(x, y)) == k + TrailingZeros(Xor(u, v))
    decreases k
  {
    LowestDifference(x, y);
    if k > 0 {
      HalveBack(a, b);
      if x % 2 == y % 2 {
        DifferenceAbove(k - 1, a / 2, b / 2, x / 2, y / 2, u, v);
      }
    }
  }

  function Pow2(k: nat): (r: nat)
    ensures r >= 1
  {
    if k == 0 then 1 else 2 * Pow2(k - 1)
  }

  lemma {:induction false} SplitsLow(k: nat, a: nat, u: nat)
    requires a < Pow2(k)
    ensures Splits(k, a, a + Pow2(k) * u, u)
    decreases k
  {
    if k > 0 {
      var t := Pow2(k - 1) * u;
      assert Pow2(k) * u == 2 * t;
      assert a == a % 2 + 2 * (a / 2);
      Halve(a % 2, a / 2 + t);
      SplitsLow(k - 1, a / 2, u);
    }
  }

  lemma ByteDifference(k: nat, a: byte, b: byte, u: nat, v: nat)
    requires k == 8 && a + 256 * u != b + 256 * v
    ensures Xor(a + 256 * u, b + 256 * v) != 0
    ensures a != b ==> TrailingZeros(Xor(a + 256 * u, b + 256 * v)) < k
    ensures a == b ==> Xor(u, v) != 0 && TrailingZeros(Xor(a + 256 * u, b + 256 * v)) == k + TrailingZeros(Xor(u, v))
  {
    assert Pow2(8) == 256;
    SplitsLow(k, a, u);
    SplitsLow(k, b, v);
    DifferenceAbove(k, a, b, a + 256 * u, b + 256 * v, u, v);
  }

  lemma {:induction false} ReadArchInjective(x: seq<byte>, y: seq<byte>)
    requires |x| == |y|
    ensures ReadArch(x) == ReadArch(y) <==> x == y
    decreases |x|
  {
    if x != [] {
      ReadArchInjective(x[1..], y[1..]);
      assert x == [x[0]] + x[1..] && y == [y[0]] + y[1..];
    }
  }

  /** The number of leading bytes that agree, from the exclusive or of the words. */
  lemma {:induction false} DifferentWords(x: seq<byte>, y: seq<byte>, d: nat)
    requires |x| == |y| && x != y && d == Xor(ReadArch(x), ReadArch(y))
    ensures d != 0
    ensures var n := NbCommonBytes(d); n < |x| && x[..n] == y[..n] && x[n] != y[n]
    decreases |x|
  {
    var u, v := ReadArch(x[1..]), ReadArch(y[1..]);
    ReadArchInjective(x, y);
    ByteDifference(8, x[0], y[0], u, v);
    if x[0] == y[0] {
      assert x == [x[0]] + x[1..] && y == [y[0]] + y[1..];
      DifferentWords(x[1..], y[1..], Xor(u, v));
      TailDifference(x, y, NbCommonBytes(Xor(u, v)));
    }
  }

  /** The exclusive or of two words finds the first difference of their bytes. */
  lemma FirstDifference(x: seq<byte>, y: seq<byte>)
    requires |x| == |y|
    ensures Xor(ReadArch(x), ReadArch(y)) == 0 <==> x == y
    ensures x != y ==>
      var n := NbCommonBytes(Xor(ReadArch(x), ReadArch(y)));
      n < |x| && x[..n] == y[..n] && x[n] != y[n]
  {
    XorZero(ReadArch(x), ReadArch(y));
    ReadArchInjective(x, y);
    if x != y {
      DifferentWords(x, y, Xor(ReadArch(x), ReadArch(y)));
    }
  }

  lemma TailDifference(x: seq<byte>, y: seq<byte>, n: nat)
    requires |x| == |y| && n + 1 < |x| && x[0] == y[0]
    requires x[1..][..n] == y[1..][..n] && x[1..][n] != y[1..][n]
    ensures x[..n + 1] == y[..n + 1] && x[n + 1] != y[n + 1]
  {
    assert x[..n + 1] == [x[0]] + x[1..][..n];
    assert y[..n + 1] == [y[0]] + y[1..][..n];
  }
}
