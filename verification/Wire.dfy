/** What travels between client and server: big-endian numbers, checksums, frames. */
module Wire {
  import opened Bytes

  const TWO63 := 0x8000_0000_0000_0000
  const TWO64 := 0x1_0000_0000_0000_0000

  // ---------------------------------------------------------------------
  // Checksums
  // ---------------------------------------------------------------------

  function Sum(s: seq<byte>): (n: nat)
    ensures n <= 255 * |s|
  {
    if s == [] then 0 else Sum(s[..|s| - 1]) + s[|s| - 1]
  }

  /** _isr_count_byte_values, in 64-bit unsigned arithmetic. */
  method CountByteValues(data: seq<byte>, length: nat) returns (count: nat)
    requires length <= |data|
    ensures count == Sum(data[..length]) % TWO64
  {
    count := 0;
    var i := 0;
    while i < length
      invariant 0 <= i <= length && count == Sum(data[..i]) % TWO64
    {
      assert data[..i + 1][..i] == data[..i];
      count := (count + data[i]) % TWO64;
      i := i + 1;
    }
  }

  /** The checksum does not depend on how the data is cut. */
  lemma {:induction false} SumOfBoth(a: seq<byte>, b: seq<byte>)
    ensures Sum(a + b) == Sum(a) + Sum(b)
    decreases |b|
  {
    if b == [] {
      assert a + b == a;
    } else {
      var k := |b| - 1;
      assert (a + b)[..|a + b| - 1] == a + b[..k];
      SumOfBoth(a, b[..k]);
    }
  }

  /** A running checksum, as unsigned and as signed 64-bit number. */
  function Checksum(s: seq<byte>): (c: nat)
    ensures c < TWO64
  {
    Sum(s) % TWO64
  }

  function AsInt64(c: nat): (r: int)
    requires c < TWO64
  {
    if c < TWO63 then c else c - TWO64
  }

  lemma ChecksumOfBoth(a: seq<byte>, b: seq<byte>)
    ensures Checksum(a + b) == (Checksum(a) + Checksum(b)) % TWO64
  {
    SumOfBoth(a, b);
    AddModulo(Sum(a), Sum(b), Sum(a) / TWO64 + Sum(b) / TWO64);
  }

  lemma AddModulo(m: nat, n: nat, k: nat)
    requires k == m / TWO64 + n / TWO64
    ensures (m + n) % TWO64 == (m % TWO64 + n % TWO64) % TWO64
  {
    var r := m % TWO64 + n % TWO64;
    assert m + n == TWO64 * k + r;
    assert r < 2 * TWO64;
  }

  /** As long as the total stays below 2^63, a checksum returned as a signed number is
      the total itself, and neither of the error codes -1 and -2. */
  lemma ChecksumIsNoError(s: seq<byte>)
    ensures Sum(s) < TWO63 ==> AsInt64(Checksum(s)) == Sum(s) >= 0
    ensures 255 * |s| < TWO63 ==> AsInt64(Checksum(s)) == Sum(s)
    ensures AsInt64(Checksum(s)) == -1 <==> Sum(s) % TWO64 == TWO64 - 1
    ensures AsInt64(Checksum(s)) == -2 <==> Sum(s) % TWO64 == TWO64 - 2
  {
  }

  /** One changed byte always changes the checksum. */
  lemma ChecksumSeesOneByte(s: seq<byte>, i: nat, x: byte)
    requires i < |s| && x != s[i]
    ensures Checksum(s[i := x]) != Checksum(s)
  {
    var a, b := s[..i], s[i + 1..];
    assert s == a + [s[i]] + b && s[i := x] == a + [x] + b;
    SumOfBoth(a + [s[i]], b);
    SumOfBoth(a + [x], b);
    SumOfBoth(a, [s[i]]);
    SumOfBoth(a, [x]);
    assert Sum(s[i := x]) - Sum(s) == x - s[i];
    NearbyModulo(Sum(s), Sum(s[i := x]));
  }

  lemma NearbyModulo(m: nat, n: nat)
    requires m != n && m < n + 256 && n < m + 256
    ensures m % TWO64 != n % TWO64
  {
  }

  /** As long as the totals stay below 2^64, the checksum tells data apart exactly when
      their totals differ. */
  lemma ChecksumTellsTotals(a: seq<byte>, b: seq<byte>)
    requires Sum(a) < TWO64 && Sum(b) < TWO64
    ensures Checksum(a) == Checksum(b) <==> Sum(a) == Sum(b)
  {
  }

  lemma SumWithout(s: seq<byte>, i: nat)
    requires i < |s|
    ensures var rest := s[..i] + s[i + 1..];
            Sum(s) == Sum(rest) + s[i] && multiset(rest) == multiset(s) - multiset{s[i]}
  {
    var a, x, b := s[..i], [s[i]], s[i + 1..];
    assert s == a + (x + b);
    SumOfBoth(a, x + b);
    SumOfBoth(x, b);
    SumOfBoth(a, b);
    assert Sum(x) == s[i] by {
      assert x[..0] == [];
    }
  }

  /** So it is blind to the order of the bytes. */
  lemma {:induction false} ChecksumIgnoresOrder(a: seq<byte>, b: seq<byte>)
    requires multiset(a) == multiset(b)
    ensures Sum(a) == Sum(b) && Checksum(a) == Checksum(b)
    decreases |a|
  {
    assert |a| == |multiset(a)| == |multiset(b)| == |b|;
    if a != [] {
      assert a[0] in multiset(b);
      var i :| 0 <= i < |b| && b[i] == a[0];
      SumWithout(a, 0);
      SumWithout(b, i);
      ChecksumIgnoresOrder(a[..0] + a[0 + 1..], b[..i] + b[i + 1..]);
    }
  }

  // ---------------------------------------------------------------------
  // Numbers
  // ---------------------------------------------------------------------

  function Power256(k: nat): (p: nat)
    ensures p >= 1
  {
    if k == 0 then 1 else 256 * Power256(k - 1)
  }

  /** `n` in `k` bytes, most significant first; what does not fit is cut off. */
  function BigEndian(n: nat, k: nat): (s: seq<byte>)
    ensures |s| == k
  {
    if k == 0 then [] else BigEndian(n / 256, k - 1) + [n % 256]
  }

  function FromBigEndian(s: seq<byte>): nat {
    if s == [] then 0 else 256 * FromBigEndian(s[..|s| - 1]) + s[|s| - 1]
  }

  lemma {:induction false} BigEndianBack(n: nat, k: nat)
    requires n < Power256(k)
    ensures FromBigEndian(BigEndian(n, k)) == n
    decreases k
  {
    if k > 0 {
      BigEndianBack(n / 256, k - 1);
      assert BigEndian(n, k)[..k - 1] == BigEndian(n / 256, k - 1);
    }
  }

  /** Byte `i` is the digit of weight 256^(k-1-i). */
  lemma {:induction false} BigEndianDigit(n: nat, k: nat, i: nat)
    requires i < k
    ensures BigEndian(n, k)[i] == n / Power256(k - 1 - i) % 256
    decreases k
  {
    if i < k - 1 {
      BigEndianDigit(n / 256, k - 1, i);
      DivideTwice(n, Power256(k - 2 - i));
    }
  }

  lemma DivideTwice(n: nat, p: nat)
    requires p >= 1
    ensures n / 256 / p == n / (256 * p)
  {
    var a, b := n / 256, n % 256;
    var q, r := a / p, a % p;
    assert n == 256 * p * q + (256 * r + b);
    assert 256 * r + b < 256 * p;
    Quotient(n, 256 * p, q, 256 * r + b);
  }

  lemma Quotient(n: nat, d: nat, q: nat, r: nat)
    requires n == d * q + r && r < d
    ensures n / d == q
  {
    var q2 := n / d;
    if q < q2 {
      TimesMore(d, q + 1, q2);
    } else if q2 < q {
      TimesMore(d, q2 + 1, q);
    }
  }

  lemma TimesMore(d: nat, x: nat, y: nat)
    requires x <= y
    ensures d * x <= d * y
  {
    assert d * (y - x) >= 0;
  }

  lemma {:induction false} FromBigEndianBound(s: seq<byte>)
    ensures FromBigEndian(s) < Power256(|s|)
    ensures BigEndian(FromBigEndian(s), |s|) == s
    decreases |s|
  {
    if s != [] {
      FromBigEndianBound(s[..|s| - 1]);
    }
  }

  lemma Powers()
    ensures Power256(2) == 0x1_0000 && Power256(4) == 0x1_0000_0000 && Power256(8) == TWO64
  {
    assert Power256(4) == 256 * (256 * Power256(2));
    assert Power256(8) == 256 * (256 * (256 * (256 * Power256(4))));
  }

  // ---------------------------------------------------------------------
  // Files
  // ---------------------------------------------------------------------

  function Concat(parts: seq<seq<byte>>): seq<byte> {
    if parts == [] then [] else Concat(parts[..|parts| - 1]) + parts[|parts| - 1]
  }

  lemma ConcatMore(parts: seq<seq<byte>>, x: seq<byte>)
    ensures Concat(parts + [x]) == Concat(parts) + x
  {
    assert (parts + [x])[..|parts|] == parts;
  }

  /** A compressed block on the wire: its length, and the block. */
  function Frame(b: seq<byte>): seq<byte> {
    BigEndian(|b|, 4) + b
  }

  function Frames(blocks: seq<seq<byte>>): seq<byte> {
    if blocks == [] then [] else Frames(blocks[..|blocks| - 1]) + Frame(blocks[|blocks| - 1])
  }

  lemma FramesMore(blocks: seq<seq<byte>>, b: seq<byte>)
    ensures Frames(blocks + [b]) == Frames(blocks) + Frame(b)
  {
    assert (blocks + [b])[..|blocks|] == blocks;
  }

  lemma {:induction false} FramesFirst(blocks: seq<seq<byte>>)
    requires blocks != []
    ensures Frames(blocks) == Frame(blocks[0]) + Frames(blocks[1..])
    decreases |blocks|
  {
    var k := |blocks| - 1;
    if k > 0 {
      FramesFirst(blocks[..k]);
      assert blocks[..k][1..] == blocks[1..][..k - 1];
    }
  }

  /** What follows the file: its checksum. */
  function Trailer(file: seq<byte>): seq<byte> {
    BigEndian(Checksum(file), 8)
  }
}
