/** Equal stretches of byte sequences, and common runs stated with them. */
module Stretches {
  import opened Bytes

  /** `k` bytes of `s` at `a` equal those of `t` at `b`. */
  ghost predicate Same(s: seq<byte>, a: int, t: seq<byte>, b: int, k: nat)
    decreases k
  {
    && 0 <= a && a + k <= |s| && 0 <= b && b + k <= |t|
    && (k > 0 ==> s[a] == t[b] && Same(s, a + 1, t, b + 1, k - 1))
  }

  lemma FirstByte(s: seq<byte>, a: nat, b: nat)
    requires a < b <= |s|
    ensures s[a..b] == [s[a]] + s[a + 1..b] && s[a..b][0] == s[a] && s[a..b][1..] == s[a + 1..b]
  {
  }

  lemma {:induction false} SameSlices(s: seq<byte>, a: int, t: seq<byte>, b: int, k: nat)
    ensures Same(s, a, t, b, k) <==>
              0 <= a && a + k <= |s| && 0 <= b && b + k <= |t| && s[a..a + k] == t[b..b + k]
    decreases k
  {
    if 0 <= a && a + k <= |s| && 0 <= b && b + k <= |t| {
      if k == 0 {
        assert s[a..a + k] == [] == t[b..b + k];
      } else {
        SameSlices(s, a + 1, t, b + 1, k - 1);
        FirstByte(s, a, a + k);
        FirstByte(t, b, b + k);
      }
    }
  }

  lemma {:induction false} SameBytes(s: seq<byte>, a: nat, t: seq<byte>, b: nat, k: nat)
    requires a + k <= |s| && b + k <= |t|
    requires forall j :: a <= j < a + k ==> s[j] == t[j - a + b]
    ensures Same(s, a, t, b, k)
    decreases k
  {
    if k > 0 {
      SameBytes(s, a + 1, t, b + 1, k - 1);
    }
  }

  lemma {:induction false} SameJoin(s: seq<byte>, a: int, t: seq<byte>, b: int, k: nat, d: nat)
    requires Same(s, a, t, b, k) && Same(s, a + k, t, b + k, d)
    ensures Same(s, a, t, b, k + d)
    decreases k
  {
    if k > 0 {
      SameJoin(s, a + 1, t, b + 1, k - 1, d);
    }
  }

  lemma {:induction false} SameSplit(s: seq<byte>, a: int, t: seq<byte>, b: int, k: nat, d: nat)
    requires Same(s, a, t, b, k) && d <= k
    ensures Same(s, a, t, b, d) && Same(s, a + d, t, b + d, k - d)
    decreases d
  {
    if d > 0 {
      SameSplit(s, a + 1, t, b + 1, k - 1, d - 1);
    }
  }

  /** Two stretches of `s` are equal just when the stretches of `t` they copy are. */
  lemma {:induction false} SameBoth(s: seq<byte>, a: int, b: int, t: seq<byte>, c: int, d: int, k: nat)
    requires Same(s, a, t, c, k) && Same(s, b, t, d, k)
    ensures Same(s, a, s, b, k) <==> Same(t, c, t, d, k)
    decreases k
  {
    if k > 0 {
      SameBoth(s, a + 1, b + 1, t, c + 1, d + 1, k - 1);
    }
  }

  /** `c` is the length of the common run of at most `n` bytes. */
  ghost predicate Run(s: seq<byte>, a: int, b: int, n: nat, c: nat) {
    && 0 <= a && a + n <= |s| && 0 <= b && b + n <= |s| && c <= n
    && Same(s, a, s, b, c)
    && (c < n ==> s[a + c] != s[b + c])
  }

  lemma {:induction false} RunOfCopy(mem: seq<byte>, a: int, b: int, k: nat, r: nat, text: seq<byte>, c: int, d: int)
    requires Same(text, c, mem, a, k) && Same(text, d, mem, b, k) && Run(mem, a, b, k, r)
    ensures Run(text, c, d, k, r)
  {
    SameSplit(text, c, mem, a, k, r);
    SameSplit(text, d, mem, b, k, r);
    SameBoth(text, c, d, mem, a, b, r);
  }

  /** The run from `a` on, put together from its first four bytes, the rest of its
      first `k`, and, if that is all equal, what follows. */
  lemma {:induction false} RunOfParts(s: seq<byte>, a: int, b: int, n: nat, k: nat, c: nat, more: nat)
    requires 4 <= k <= n && Same(s, a, s, b, 4) && Run(s, a + 4, b + 4, k - 4, c)
    requires a + n <= |s| && b + n <= |s|
    requires if c == k - 4 then Run(s, a + k, b + k, n - k, more) else more == 0
    ensures Run(s, a, b, n, 4 + c + more)
  {
    SameJoin(s, a, s, b, 4, c);
    if c == k - 4 {
      SameJoin(s, a, s, b, k, more);
    }
  }

  /** No common stretch is longer than the run. */
  lemma {:induction false} RunIsLongest(s: seq<byte>, a: int, b: int, n: nat, c: nat, k: nat)
    requires Run(s, a, b, n, c) && Same(s, a, s, b, k) && k <= n
    ensures k <= c
  {
    if c < k {
      SameSplit(s, a, s, b, k, c);
    }
  }

  // ---------------------------------------------------------------------
  // Ends of sequences
  // ---------------------------------------------------------------------

  ghost predicate Suffix(h: seq<byte>, s: seq<byte>) {
    |h| <= |s| && Same(h, 0, s, |s| - |h|, |h|)
  }

  lemma {:induction false} SuffixIs(h: seq<byte>, s: seq<byte>)
    ensures Suffix(h, s) <==> |h| <= |s| && s[|s| - |h|..] == h
  {
    if |h| <= |s| {
      SameSlices(h, 0, s, |s| - |h|, |h|);
      assert h[0..0 + |h|] == h;
    }
  }

  lemma {:induction false} SuffixSplit(h: seq<byte>, s: seq<byte>) returns (g: seq<byte>)
    requires Suffix(h, s)
    ensures s == g + h
  {
    SuffixIs(h, s);
    g := s[..|s| - |h|];
  }

  lemma {:induction false} SuffixOfSum(g: seq<byte>, h: seq<byte>)
    ensures Suffix(h, g + h)
  {
    SuffixIs(h, g + h);
  }

  lemma {:induction false} SuffixSelf(h: seq<byte>)
    ensures Suffix(h, h)
  {
    SuffixIs(h, h);
  }

  lemma {:induction false} SuffixTrans(h: seq<byte>, k: seq<byte>, s: seq<byte>)
    requires Suffix(h, k) && Suffix(k, s)
    ensures Suffix(h, s)
  {
    var g1 := SuffixSplit(h, k);
    var g2 := SuffixSplit(k, s);
    assert s == (g2 + g1) + h;
    SuffixOfSum(g2 + g1, h);
  }

  lemma {:induction false} SuffixGrows(h: seq<byte>, s: seq<byte>, x: seq<byte>)
    requires Suffix(h, s)
    ensures Suffix(h + x, s + x)
  {
    var g := SuffixSplit(h, s);
    assert s + x == g + (h + x);
    SuffixOfSum(g, h + x);
  }

  /** The end of a stretch of memory. */
  lemma {:induction false} SuffixOfStretch(mem: seq<byte>, a: nat, b: nat, c: nat)
    requires a <= b <= c <= |mem|
    ensures Suffix(mem[b..c], mem[a..c])
  {
    assert mem[a..c] == mem[a..b] + mem[b..c];
    SuffixOfSum(mem[a..b], mem[b..c]);
  }
}
