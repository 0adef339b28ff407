/** LZ4_count: how far two positions of memory agree, eight bytes at a time. */
module MatchCount {
  import opened Bytes
  import opened MachineWord
  import opened Stretches

  /** The length of the longest common run of at most `n` bytes. */
  function CommonRun(s: seq<byte>, a: nat, b: nat, n: nat): (r: nat)
    requires a + n <= |s| && b + n <= |s|
    ensures r <= n
    decreases n
  {
    if n > 0 && s[a] == s[b] then 1 + CommonRun(s, a + 1, b + 1, n - 1) else 0
  }

  lemma {:induction false} CommonRunIs(s: seq<byte>, a: nat, b: nat, n: nat)
    requires a + n <= |s| && b + n <= |s|
    ensures Run(s, a, b, n, CommonRun(s, a, b, n))
    decreases n
  {
    if n > 0 && s[a] == s[b] {
      CommonRunIs(s, a + 1, b + 1, n - 1);
    }
  }

  /** A common stretch lengthens the run behind it. */
  lemma {:induction false} CommonRunMore(s: seq<byte>, a: nat, b: nat, n: nat, k: nat)
    requires a + n <= |s| && b + n <= |s| && k <= n && Same(s, a, s, b, k)
    ensures CommonRun(s, a, b, n) == k + CommonRun(s, a + k, b + k, n - k)
    decreases k
  {
    if k > 0 {
      CommonRunMore(s, a + 1, b + 1, n - 1, k - 1);
    }
  }

  /** Two stretches that differ end the run within them. */
  lemma {:induction false} ShortRun(s: seq<byte>, a: nat, b: nat, n: nat, k: nat)
    requires a + n <= |s| && b + n <= |s| && k <= n && !Same(s, a, s, b, k)
    ensures CommonRun(s, a, b, n) < k
    decreases k
  {
    if s[a] == s[b] {
      ShortRun(s, a + 1, b + 1, n - 1, k - 1);
    }
  }

  /** Whether the next `k` bytes are equal, as one comparison. */
  method Equal(mem: seq<byte>, pMatch: nat, pIn: nat, k: nat, n: nat) returns (equal: bool)
    requires k <= n && pMatch + n <= |mem| && pIn + n <= |mem|
    ensures equal ==> CommonRun(mem, pMatch, pIn, n) == k + CommonRun(mem, pMatch + k, pIn + k, n - k)
    ensures !equal ==> CommonRun(mem, pMatch, pIn, n) < k
  {
    SameSlices(mem, pMatch, mem, pIn, k);
    equal := mem[pMatch..pMatch + k] == mem[pIn..pIn + k];
    if equal {
      CommonRunMore(mem, pMatch, pIn, n, k);
    } else {
      ShortRun(mem, pMatch, pIn, n, k);
    }
  }

  /** The last bytes: four, two, one. */
  method CountTail(mem: seq<byte>, pIn0: nat, pMatch0: nat, pInLimit: nat) returns (r: nat)
    requires pIn0 <= pInLimit <= |mem| && pMatch0 + (pInLimit - pIn0) <= |mem| && pInLimit <= pIn0 + 7
    ensures r == CommonRun(mem, pMatch0, pIn0, pInLimit - pIn0)
  {
    var pIn, pMatch := pIn0, pMatch0;
    if pIn < pInLimit - 3 {
      var equal := Equal(mem, pMatch, pIn, 4, pInLimit - pIn);
      if equal {
        pIn, pMatch := pIn + 4, pMatch + 4;
      }
    }
    if pIn < pInLimit - 1 {
      var equal := Equal(mem, pMatch, pIn, 2, pInLimit - pIn);
      if equal {
        pIn, pMatch := pIn + 2, pMatch + 2;
      }
    }
    if pIn < pInLimit && mem[pMatch] == mem[pIn] {
      pIn := pIn + 1;
    }
    r := pIn - pIn0;
  }

  /** The first difference in a word ends the run there. */
  lemma WordRun(s: seq<byte>, a: nat, b: nat, limit: nat, n: nat)
    requires 8 <= limit && a + limit <= |s| && b + limit <= |s| && n < 8
    requires s[a..a + 8][..n] == s[b..b + 8][..n] && s[a..a + 8][n] != s[b..b + 8][n]
    ensures CommonRun(s, a, b, limit) == n
  {
    assert s[a..a + n] == s[a..a + 8][..n] && s[b..b + n] == s[b..b + 8][..n];
    SameSlices(s, a, s, b, n);
    CommonRunMore(s, a, b, limit, n);
    assert s[a + n] == s[a..a + 8][n] && s[b + n] == s[b..b + 8][n];
  }

  /** The words: `pIn` is compared with `pMatch` up to `pInLimit`. */
  method CountWords(mem: seq<byte>, pIn0: nat, pMatch0: nat, pInLimit: nat) returns (r: nat)
    requires pIn0 <= pInLimit <= |mem| && pMatch0 + (pInLimit - pIn0) <= |mem|
    ensures r == CommonRun(mem, pMatch0, pIn0, pInLimit - pIn0)
  {
    var pIn, pMatch := pIn0, pMatch0;
    while pIn < pInLimit - 7
      invariant pIn0 <= pIn <= pInLimit && pMatch - pMatch0 == pIn - pIn0
      invariant CommonRun(mem, pMatch0, pIn0, pInLimit - pIn0) == (pIn - pIn0) + CommonRun(mem, pMatch, pIn, pInLimit - pIn)
    {
      var diff := Xor(ReadArch(mem[pMatch..pMatch + 8]), ReadArch(mem[pIn..pIn + 8]));
      FirstDifference(mem[pMatch..pMatch + 8], mem[pIn..pIn + 8]);
      if diff == 0 {
        SameSlices(mem, pMatch, mem, pIn, 8);
        CommonRunMore(mem, pMatch, pIn, pInLimit - pIn, 8);
        pIn, pMatch := pIn + 8, pMatch + 8;
      } else {
        var n := NbCommonBytes(diff);
        WordRun(mem, pMatch, pIn, pInLimit - pIn, n);
        return pIn + n - pIn0;
      }
    }
    var tail := CountTail(mem, pIn, pMatch, pInLimit);
    r := pIn - pIn0 + tail;
  }

  /** LZ4_count: the length of the common run of `pIn` and `pMatch`, up to `pInLimit`. */
  method Count(mem: seq<byte>, pIn: nat, pMatch: nat, pInLimit: nat) returns (r: nat)
    requires pIn <= pInLimit <= |mem| && pMatch + (pInLimit - pIn) <= |mem|
    ensures Run(mem, pMatch, pIn, pInLimit - pIn, r)
  {
    r := CountWords(mem, pIn, pMatch, pInLimit);
    CommonRunIs(mem, pMatch, pIn, pInLimit - pIn);
  }

  /** LZ4_count between two stretches of memory that are part of the text. */
  method CountStretch(mem: seq<byte>, a: nat, b: nat, k: nat, ghost text: seq<byte>, ghost c: int, ghost d: int)
    returns (r: nat)
    requires Same(text, c, mem, a, k) && Same(text, d, mem, b, k)
    ensures Run(text, c, d, k, r)
  {
    r := Count(mem, b, a, b + k);
    RunOfCopy(mem, a, b, k, r, text, c, d);
  }
}
