/** The byte form of a sequence, and what a growing block decodes to. */
module BlockEncoding {
  import opened Bytes
  import opened BlockFormat

  /** The bytes of a length extension: 255s and a smaller byte. */
  function RunBytes(m: nat): (r: seq<byte>)
    ensures |r| == RunSize(m)
  {
    if m < 255 then [m] else [255] + RunBytes(m - 255)
  }

  function RunSize(m: nat): nat {
    if m < 255 then 1 else 1 + RunSize(m - 255)
  }

  /** The bytes that follow the token for a length of `n`. */
  function LengthBytes(n: nat): (r: seq<byte>)
    ensures |r| == LengthSize(n)
  {
    if n < 15 then [] else RunBytes(n - 15)
  }

  function LengthSize(n: nat): nat {
    if n < 15 then 0 else RunSize(n - 15)
  }

  lemma {:induction false} RunSizeIs(m: nat)
    ensures RunSize(m) == m / 255 + 1
    decreases m
  {
    if m >= 255 {
      RunSizeIs(m - 255);
    }
  }

  /** The number of length bytes, as the bounds of the compressor compute it. */
  lemma LengthSizeIs(n: nat)
    ensures LengthSize(n) == (n + 240) / 255
  {
    if n >= 15 {
      RunSizeIs(n - 15);
    }
  }

  function Nibble(n: nat): (r: nat)
    ensures r < 16
  {
    if n < 15 then n else 15
  }

  /** A token that has no match length yet. */
  function Token(ll: nat): byte {
    16 * Nibble(ll)
  }

  /** Token, literal length, literals. */
  function Head(lits: seq<byte>, code: nat): seq<byte> {
    [Token(|lits|) + Nibble(code)] + LengthBytes(|lits|) + lits
  }

  /** The same without a match. */
  function Opening(lits: seq<byte>): seq<byte> {
    [Token(|lits|)] + LengthBytes(|lits|) + lits
  }

  /** Offset and match length. */
  function Tail(off: nat, code: nat): seq<byte>
    requires off <= DISTANCE_MAX
  {
    [off % 256, off / 256] + LengthBytes(code)
  }

  lemma {:induction false} ReadsRun(s: seq<byte>, i: nat, m: nat)
    requires i + |RunBytes(m)| <= |s| && s[i..i + |RunBytes(m)|] == RunBytes(m)
    ensures ReadRun(s, i) == Length(m, i + |RunBytes(m)|)
    decreases m
  {
    assert s[i] == s[i..i + |RunBytes(m)|][0];
    if m >= 255 {
      assert s[i + 1..i + |RunBytes(m)|] == s[i..i + |RunBytes(m)|][1..] == RunBytes(m - 255);
      ReadsRun(s, i + 1, m - 255);
    }
  }

  lemma {:induction false} ReadsLength(s: seq<byte>, i: nat, n: nat)
    requires i + |LengthBytes(n)| <= |s| && s[i..i + |LengthBytes(n)|] == LengthBytes(n)
    ensures ReadLength(s, i, Nibble(n)) == Length(n, i + |LengthBytes(n)|)
  {
    if n >= 15 {
      ReadsRun(s, i, n - 15);
    }
  }

  /** The literal part of a sequence, which ends at `j`, is parsed back. */
  lemma {:induction false} ReadsHead(s: seq<byte>, i: nat, j: nat, lits: seq<byte>, code: nat)
    requires j == i + |Head(lits, code)| <= |s| && s[i..j] == Head(lits, code)
    ensures i < |s| && s[i] % 16 == Nibble(code)
    ensures i < j - |lits| && s[j - |lits|..j] == lits
    ensures ParseAt(s, i) == ParseLiterals(s, Nibble(code), j - |lits|, |lits|)
  {
    var x, n := Head(lits, code), |LengthBytes(|lits|)|;
    HeadParts(s, i, lits, code, x, n);
    var lit := i + 1 + n;
    assert lit == j - |lits| && lit + |lits| == j;
    TokenParts(|lits|, code);
    ReadsLength(s, i + 1, |lits|);
    ParsesHead(s, i, |lits|, lit, Nibble(code));
  }

  lemma ParsesHead(s: seq<byte>, i: nat, ll: nat, lit: nat, nibble: nat)
    requires i < |s| && s[i] / 16 == Nibble(ll) && s[i] % 16 == nibble
    requires ReadLength(s, i + 1, Nibble(ll)) == Length(ll, lit)
    ensures ParseAt(s, i) == ParseLiterals(s, nibble, lit, ll)
  {
  }

  lemma {:induction false} HeadParts(s: seq<byte>, i: nat, lits: seq<byte>, code: nat, x: seq<byte>, n: nat)
    requires x == Head(lits, code) && n == |LengthBytes(|lits|)| && i + |x| <= |s| && s[i..i + |x|] == x
    ensures s[i] == Token(|lits|) + Nibble(code)
    ensures |x| == 1 + n + |lits| && s[i + 1..i + 1 + n] == LengthBytes(|lits|)
    ensures s[i + 1 + n..i + 1 + n + |lits|] == lits
  {
    var one := [Token(|lits|) + Nibble(code)];
    ThreeParts(s, i, one, LengthBytes(|lits|), lits);
    FirstOf(s, i, one);
  }

  lemma FirstOf(s: seq<byte>, i: nat, x: seq<byte>)
    requires 1 <= |x| && i + |x| <= |s| && s[i..i + |x|] == x
    ensures s[i] == x[0]
  {
    assert s[i..i + |x|][0] == s[i];
  }

  lemma TokenParts(ll: nat, code: nat)
    ensures (Token(ll) + Nibble(code)) / 16 == Nibble(ll) && (Token(ll) + Nibble(code)) % 16 == Nibble(code)
  {
  }

  lemma TwoParts(s: seq<byte>, i: nat, a: seq<byte>, b: seq<byte>)
    requires i + |a + b| <= |s| && s[i..i + |a + b|] == a + b
    ensures s[i..i + |a|] == a && s[i + |a|..i + |a| + |b|] == b
  {
    SlicePart(s, i, a + b, 0, |a|);
    SlicePart(s, i, a + b, |a|, |a + b|);
  }

  lemma {:induction false} ThreeParts(s: seq<byte>, i: nat, a: seq<byte>, b: seq<byte>, c: seq<byte>)
    requires i + |a + b + c| <= |s| && s[i..i + |a + b + c|] == a + b + c
    ensures s[i..i + |a|] == a && s[i + |a|..i + |a| + |b|] == b
    ensures s[i + |a| + |b|..i + |a| + |b| + |c|] == c
  {
    SlicePart(s, i, a + b + c, 0, |a|);
    SlicePart(s, i, a + b + c, |a|, |a| + |b|);
    SlicePart(s, i, a + b + c, |a| + |b|, |a + b + c|);
  }

  lemma {:induction false} SlicePart(s: seq<byte>, i: nat, x: seq<byte>, from: nat, to: nat)
    requires i + |x| <= |s| && s[i..i + |x|] == x && from <= to <= |x|
    ensures s[i + from..i + to] == x[from..to]
  {
    forall k | 0 <= k < to - from ensures s[i + from..i + to][k] == x[from..to][k] {
      assert s[i..i + |x|][from + k] == x[from + k];
    }
  }

  lemma {:induction false} ReadsTail(s: seq<byte>, i: nat, off: nat, code: nat)
    requires off <= DISTANCE_MAX
    requires var y := Tail(off, code); i + |y| <= |s| && s[i..i + |y|] == y
    ensures LE16(s[i], s[i + 1]) == off
    ensures ReadLength(s, i + 2, Nibble(code)) == Length(code, i + |Tail(off, code)|)
  {
    var y := Tail(off, code);
    assert s[i] == s[i..i + |y|][0] == y[0];
    assert s[i + 1] == s[i..i + |y|][1] == y[1];
    assert s[i + 2..i + |y|] == s[i..i + |y|][2..] == y[2..];
    ReadsLength(s, i + 2, code);
  }

  /** A whole sequence is parsed back. */
  lemma {:induction false} ReadsSequence(s: seq<byte>, i: nat, lits: seq<byte>, off: nat, code: nat)
    requires off <= DISTANCE_MAX
    requires var z := Head(lits, code) + Tail(off, code); i + |z| <= |s| && s[i..i + |z|] == z
    ensures var x := Head(lits, code);
            var lit := i + |x| - |lits|;
            && ParseAt(s, i) == Match(lit, |lits|, off, code + MINMATCH, i + |x| + |Tail(off, code)|)
            && s[lit..lit + |lits|] == lits
  {
    TwoParts(s, i, Head(lits, code), Tail(off, code));
    ReadsBoth(s, i, i + |Head(lits, code)|, lits, off, code);
  }

  lemma {:induction false} ReadsBoth(s: seq<byte>, i: nat, j: nat, lits: seq<byte>, off: nat, code: nat)
    requires off <= DISTANCE_MAX && j == i + |Head(lits, code)| && j + |Tail(off, code)| <= |s|
    requires s[i..j] == Head(lits, code) && s[j..j + |Tail(off, code)|] == Tail(off, code)
    ensures ParseAt(s, i) == Match(j - |lits|, |lits|, off, code + MINMATCH, j + |Tail(off, code)|)
    ensures s[j - |lits|..j] == lits
  {
    ReadsHead(s, i, j, lits, code);
    ReadsTail(s, j, off, code);
    ParsesMatch(s, Nibble(code), j - |lits|, |lits|, off, code, j + |Tail(off, code)|);
  }

  lemma ParsesMatch(s: seq<byte>, nibble: nat, lit: nat, ll: nat, off: nat, code: nat, next: nat)
    requires lit + ll + 2 <= |s| && LE16(s[lit + ll], s[lit + ll + 1]) == off
    requires ReadLength(s, lit + ll + 2, nibble) == Length(code, next)
    ensures ParseLiterals(s, nibble, lit, ll) == Match(lit, ll, off, code + MINMATCH, next)
  {
  }

  // ---------------------------------------------------------------------
  // A block under construction
  // ---------------------------------------------------------------------

  type Distance = x: int | 1 <= x <= DISTANCE_MAX witness 1

  /** A series of sequences `e` that builds `w`, with the last match at `q`, and the
      sequence that comes next. */
  datatype Draft = Draft(e: seq<byte>, w: seq<byte>, q: int, lits: seq<byte>, off: Distance, code: nat)

  ghost predicate Adds(d: Draft, e: seq<byte>, w: seq<byte>, q: int) {
    && d.off <= |d.w + d.lits|
    && e == d.e + (Head(d.lits, d.code) + Tail(d.off, d.code))
    && w == Extend(d.w + d.lits, d.off, d.code + MINMATCH)
    && q == |d.w| + |d.lits|
  }

  /** `e` is a series of sequences that builds `w` on top of `h`; the last match
      starts at `q`. */
  ghost predicate Emits(e: seq<byte>, h: seq<byte>, w: seq<byte>, q: int)
    decreases |e|
  {
    || (e == [] && w == h && q == 0)
    || exists d: Draft :: |d.e| < |e| && Adds(d, e, w, q) && Emits(d.e, h, d.w, d.q)
  }

  /** A block may end at `end` after the matches of `e`. */
  ghost predicate EndAllows(e: seq<byte>, w: seq<byte>, q: int, end: nat) {
    e == [] || (q + MFLIMIT <= end && |w| + LASTLITERALS <= end)
  }

  lemma {:induction false} EmitsNothing(h: seq<byte>)
    ensures Emits([], h, h, 0)
  {
  }

  /** One more sequence, on top of the text `w` and its literals. */
  lemma {:induction false} EmitsSequence(e: seq<byte>, h: seq<byte>, w: seq<byte>, q: int, d: Draft,
                                         e2: seq<byte>, w2: seq<byte>, q2: int)
    requires Emits(e, h, w, q) && d.e == e && d.w == w && d.q == q && Adds(d, e2, w2, q2)
    ensures Emits(e2, h, w2, q2)
  {
    assert |d.e| < |e2|;
  }

  /** Every block that starts with the sequences decodes as if `w` had been decoded
      when their end is reached. */
  lemma {:induction false} EmitsDecodes(e: seq<byte>, h: seq<byte>, w: seq<byte>, q: int, s: seq<byte>)
    requires Emits(e, h, w, q) && e <= s
    ensures DecodeFrom(s, 0, h) == DecodeFrom(s, |e|, w)
    decreases |e|
  {
    if !(e == [] && w == h && q == 0) {
      var d: Draft :| |d.e| < |e| && Adds(d, e, w, q) && Emits(d.e, h, d.w, d.q);
      AddsDecodes(d, e, w, q, s);
      EmitsDecodes(d.e, h, d.w, d.q, s);
    }
  }

  lemma {:induction false} EmitsWellFormed(e: seq<byte>, h: seq<byte>, w: seq<byte>, q: int, s: seq<byte>, end: nat)
    requires Emits(e, h, w, q) && e <= s && EndAllows(e, w, q, end)
    requires WellFormedFrom(s, |e|, w, end)
    ensures WellFormedFrom(s, 0, h, end)
    decreases |e|
  {
    if !(e == [] && w == h && q == 0) {
      var d: Draft :| |d.e| < |e| && Adds(d, e, w, q) && Emits(d.e, h, d.w, d.q);
      AddsWellFormed(d, e, w, q, s, end);
      EmitsInside(d.e, h, d.w, d.q);
      EmitsWellFormed(d.e, h, d.w, d.q, s, end);
    }
  }

  lemma {:induction false} AddsDecodes(d: Draft, e: seq<byte>, w: seq<byte>, q: int, s: seq<byte>)
    requires Adds(d, e, w, q) && e <= s
    ensures d.e <= s && DecodeFrom(s, |d.e|, d.w) == DecodeFrom(s, |e|, w)
  {
    EmittedStep(s, d.e, d.w, d.lits, d.off, d.code, w);
  }

  lemma {:induction false} AddsWellFormed(d: Draft, e: seq<byte>, w: seq<byte>, q: int, s: seq<byte>, end: nat)
    requires Adds(d, e, w, q) && e <= s && q + MFLIMIT <= end && |w| + LASTLITERALS <= end
    requires WellFormedFrom(s, |e|, w, end)
    ensures d.e <= s && WellFormedFrom(s, |d.e|, d.w, end) && |d.w| <= q && |d.w| <= |w|
  {
    EmittedWellFormed(s, d.e, d.w, d.lits, d.off, d.code, w, end);
  }

  lemma {:induction false} EmitsInside(e: seq<byte>, h: seq<byte>, w: seq<byte>, q: int)
    requires Emits(e, h, w, q)
    ensures q <= |w|
  {
  }

  lemma {:induction false} EmittedStep(s: seq<byte>, e: seq<byte>, w: seq<byte>, lits: seq<byte>, off: Distance,
                                       code: nat, w2: seq<byte>)
    requires off <= |w + lits| && w2 == Extend(w + lits, off, code + MINMATCH)
    requires e + (Head(lits, code) + Tail(off, code)) <= s
    ensures e <= s
    ensures DecodeFrom(s, |e|, w) == DecodeFrom(s, |e + (Head(lits, code) + Tail(off, code))|, w2)
  {
    EmittedSequence(s, e, lits, off, code);
    DecodeStep(s, |e|, w, ParseAt(s, |e|), lits, w2);
  }

  lemma StepWindowIs(s: seq<byte>, q: Sequence, w: seq<byte>, lits: seq<byte>, w2: seq<byte>)
    requires q.Match? && q.lit + q.ll <= |s| && s[q.lit..q.lit + q.ll] == lits
    requires q.off <= |w + lits| && w2 == Extend(w + lits, q.off, q.ml)
    ensures |w + lits| == |w| + q.ll && StepWindow(s, q, w) == w2
  {
  }

  lemma {:induction false} DecodeStep(s: seq<byte>, i: nat, w: seq<byte>, q: Sequence, lits: seq<byte>, w2: seq<byte>)
    requires q == ParseAt(s, i) && q.Match? && s[q.lit..q.lit + q.ll] == lits
    requires q.off <= |w + lits| && w2 == Extend(w + lits, q.off, q.ml)
    ensures DecodeFrom(s, i, w) == DecodeFrom(s, q.next, w2)
  {
    StepWindowIs(s, q, w, lits, w2);
    OneSequence(s, i, w, 0);
  }

  lemma {:induction false} EmittedWellFormed(s: seq<byte>, e: seq<byte>, w: seq<byte>, lits: seq<byte>, off: Distance,
                                             code: nat, w2: seq<byte>, end: nat)
    requires off <= |w + lits|
    requires e + (Head(lits, code) + Tail(off, code)) <= s
    requires w2 == Extend(w + lits, off, code + MINMATCH)
    requires |w + lits| + MFLIMIT <= end && |w2| + LASTLITERALS <= end
    requires WellFormedFrom(s, |e + (Head(lits, code) + Tail(off, code))|, w2, end)
    ensures e <= s && WellFormedFrom(s, |e|, w, end)
  {
    EmittedSequence(s, e, lits, off, code);
    WellFormedStep(s, |e|, w, ParseAt(s, |e|), lits, w2, end);
  }

  lemma {:induction false} WellFormedStep(s: seq<byte>, i: nat, w: seq<byte>, q: Sequence, lits: seq<byte>,
                                          w2: seq<byte>, end: nat)
    requires q == ParseAt(s, i) && q.Match? && s[q.lit..q.lit + q.ll] == lits
    requires 1 <= q.off <= |w + lits| && w2 == Extend(w + lits, q.off, q.ml)
    requires |w + lits| + MFLIMIT <= end && |w2| + LASTLITERALS <= end && WellFormedFrom(s, q.next, w2, end)
    ensures WellFormedFrom(s, i, w, end)
  {
    StepWindowIs(s, q, w, lits, w2);
    OneSequence(s, i, w, end);
  }

  lemma {:induction false} EmittedSequence(s: seq<byte>, e: seq<byte>, lits: seq<byte>, off: nat, code: nat)
    requires off <= DISTANCE_MAX
    requires e + (Head(lits, code) + Tail(off, code)) <= s
    ensures e <= s
    ensures var p := ParseAt(s, |e|);
            && p.Match? && p.ll == |lits| && p.off == off && p.ml == code + MINMATCH
            && p.next == |e + (Head(lits, code) + Tail(off, code))|
            && s[p.lit..p.lit + p.ll] == lits
  {
    var z := Head(lits, code) + Tail(off, code);
    assert s[|e|..|e| + |z|] == s[..|e + z|][|e|..] == z;
    assert s[..|e|] == s[..|e + z|][..|e|] == e;
    ReadsSequence(s, |e|, lits, off, code);
  }

  /** A sequence whose match repeats the text `t` takes the block on by as much. */
  lemma {:induction false} EmitsMatch(e: seq<byte>, h: seq<byte>, t: seq<byte>, p0: nat, p: nat, m: nat, code: nat, q: int,
                                      lits: seq<byte>, e2: seq<byte>, w: seq<byte>, w2: seq<byte>)
    requires p0 <= p && m < p <= m + DISTANCE_MAX && p + MINMATCH + code <= |t|
    requires t[m..m + (MINMATCH + code)] == t[p..p + (MINMATCH + code)]
    requires w == t[..p0] && w2 == t[..p + (MINMATCH + code)] && lits == t[p0..p]
    requires Emits(e, h, w, q) && e2 == e + (Head(lits, code) + Tail(p - m, code))
    ensures Emits(e2, h, w2, p)
  {
    RepeatedText(t, p0, p, m, code);
    EmitsSequence(e, h, w, q, Draft(e, w, q, lits, p - m, code), e2, w2, p);
  }

  lemma {:induction false} RepeatedText(t: seq<byte>, p0: nat, p: nat, m: nat, code: nat)
    requires p0 <= p && m < p && p + MINMATCH + code <= |t|
    requires t[m..m + (MINMATCH + code)] == t[p..p + (MINMATCH + code)]
    ensures |t[..p0] + t[p0..p]| == |t[..p0]| + |t[p0..p]| == p
    ensures Extend(t[..p0] + t[p0..p], p - m, code + MINMATCH) == t[..p + (MINMATCH + code)]
  {
    assert t[..p0] + t[p0..p] == t[..p];
    ExtendRepeats(t, m, p, MINMATCH + code);
  }

  /** The last run of literals closes the block. */
  lemma {:induction false} EmitsLast(e: seq<byte>, h: seq<byte>, w: seq<byte>, q: int, lits: seq<byte>, s: seq<byte>)
    requires Emits(e, h, w, q) && EndAllows(e, w, q, |w + lits|)
    requires s == e + Opening(lits)
    ensures Decode(s, h) == Some(w + lits) && WellFormedBlock(s, h)
  {
    SplitAt(e, Opening(lits), s);
    LastRun(s, |e|, w, lits);
    EmitsDecodes(e, h, w, q, s);
    EmitsWellFormed(e, h, w, q, s, |w + lits|);
  }

  lemma {:induction false} SplitAt(e: seq<byte>, x: seq<byte>, s: seq<byte>)
    requires s == e + x
    ensures e <= s && s[|e|..] == x
  {
  }

  lemma {:induction false} LastRun(s: seq<byte>, i: nat, w: seq<byte>, lits: seq<byte>)
    requires i <= |s| && s[i..] == Opening(lits)
    ensures DecodeFrom(s, i, w) == Some(w + lits)
    ensures WellFormedFrom(s, i, w, |w + lits|)
  {
    ParsesLast(s, i, lits);
    DecodesLast(s, i, w);
  }

  lemma {:induction false} ParsesLast(s: seq<byte>, i: nat, lits: seq<byte>)
    requires i <= |s| && s[i..] == Opening(lits)
    ensures |lits| <= |s| && ParseAt(s, i) == Last(|s| - |lits|, |lits|)
    ensures s[|s| - |lits|..] == lits
  {
    var x := Opening(lits);
    assert |s[i..]| == |s| - i;
    assert s[i..i + |x|] == s[i..];
    ReadsHead(s, i, |s|, lits, 0);
    assert s[|s| - |lits|..] == s[|s| - |lits|..|s| - |lits| + |lits|];
  }

  lemma {:induction false} DecodesLast(s: seq<byte>, i: nat, w: seq<byte>)
    requires ParseAt(s, i).Last?
    ensures DecodeFrom(s, i, w) == Some(w + s[ParseAt(s, i).lit..])
    ensures WellFormedFrom(s, i, w, |w| + ParseAt(s, i).ll)
  {
    OneSequence(s, i, w, |w| + ParseAt(s, i).ll);
    var q := ParseAt(s, i);
    assert s[q.lit..] == s[q.lit..q.lit + q.ll];
  }
}
