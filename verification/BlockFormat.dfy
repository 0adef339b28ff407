/** The LZ4 block format: a byte-by-byte reference decoder, the end-of-block
    restrictions, and the encoding of one sequence. */
module BlockFormat {
  import opened Bytes

  const MINMATCH := 4
  const LASTLITERALS := 5
  const MFLIMIT := 12
  const RUN_MASK := 15
  const ML_MASK := 15
  const DISTANCE_MAX := 65535

  // ---------------------------------------------------------------------
  // Overlapping match copy
  // ---------------------------------------------------------------------

  /** `w` followed by `n` bytes, each one the byte `off` positions before it.
      The format has no offset 0; the decoder of this repository turns it
      into zero bytes, and so does this function. */
  function Extend(w: seq<byte>, off: nat, n: nat): (r: seq<byte>)
    requires off <= |w|
    ensures |r| == |w| + n && w <= r
    decreases n
  {
    if n == 0 then w
    else
      var r' := Extend(w, off, n - 1);
      r' + [if off == 0 then 0 else r'[|r'| - off]]
  }

  lemma {:induction false} ExtendAt(w: seq<byte>, off: nat, n: nat)
    requires off <= |w|
    ensures forall i :: |w| <= i < |w| + n ==>
              Extend(w, off, n)[i] == if off == 0 then 0 else Extend(w, off, n)[i - off]
    decreases n
  {
    if n > 0 {
      ExtendAt(w, off, n - 1);
    }
  }

  /** The recurrence determines the extension. */
  lemma {:induction false} ExtendUnique(w: seq<byte>, off: nat, r: seq<byte>)
    requires off <= |w| && w <= r
    requires forall i :: |w| <= i < |r| ==> r[i] == if off == 0 then 0 else r[i - off]
    ensures r == Extend(w, off, |r| - |w|)
    decreases |r|
  {
    if |r| > |w| {
      var r' := r[..|r| - 1];
      ExtendUnique(w, off, r');
      assert r == r' + [r[|r| - 1]];
    }
  }

  /** A stride that is a multiple of the offset copies the right bytes. */
  lemma {:induction false} ExtendStride(w: seq<byte>, off: nat, n: nat, m: nat, stride: nat)
    requires off <= |w| && m >= 1
    requires if off == 0 then stride >= 1 else stride == m * off
    ensures forall i :: |w| - off + stride <= i < |w| + n ==>
              Extend(w, off, n)[i] == Extend(w, off, n)[i - stride]
    decreases m
  {
    var r := Extend(w, off, n);
    ExtendAt(w, off, n);
    if off > 0 && m > 1 {
      assert (m - 1) * off == m * off - off;
      ExtendStride(w, off, n, m - 1, stride - off);
      forall i | |w| - off + stride <= i < |w| + n ensures r[i] == r[i - stride] {
        assert r[i] == r[i - (stride - off)];
        assert r[i - (stride - off)] == r[i - (stride - off) - off];
      }
    }
  }

  lemma ExtendTwice(w: seq<byte>, off: nat, a: nat, b: nat)
    requires off <= |w|
    ensures Extend(Extend(w, off, a), off, b) == Extend(w, off, a + b)
  {
    var r := Extend(Extend(w, off, a), off, b);
    ExtendAt(w, off, a);
    ExtendAt(Extend(w, off, a), off, b);
    ExtendUnique(w, off, r);
  }

  lemma ExtendMore(w: seq<byte>, off: nat, a: nat, n: nat)
    requires off <= |w| && a <= n
    ensures Extend(w, off, n)[..|w| + a] == Extend(w, off, a)
  {
    ExtendTwice(w, off, a, n - a);
  }

  /** History that the offset cannot reach does not matter. */
  lemma ExtendHistory(h: seq<byte>, w: seq<byte>, off: nat, n: nat)
    requires off <= |w|
    ensures Extend(h + w, off, n) == h + Extend(w, off, n)
  {
    var r := h + Extend(w, off, n);
    ExtendAt(w, off, n);
    ExtendUnique(h + w, off, r);
  }

  /** A repeated stretch of a text is what the match copy rebuilds. */
  lemma ExtendRepeats(t: seq<byte>, m: nat, p: nat, n: nat)
    requires m < p && p + n <= |t|
    requires t[m..m + n] == t[p..p + n]
    ensures Extend(t[..p], p - m, n) == t[..p + n]
  {
    var r := t[..p + n];
    forall i | p <= i < p + n ensures r[i] == r[i - (p - m)] {
      assert t[m..m + n][i - p] == t[p..p + n][i - p];
    }
    ExtendUnique(t[..p], p - m, r);
  }

  /** A match no longer than its offset is a plain copy. */
  lemma ExtendAppend(w: seq<byte>, off: nat, x: seq<byte>)
    requires |x| <= off <= |w|
    requires x == w[|w| - off..|w| - off + |x|]
    ensures w + x == Extend(w, off, |x|)
  {
    var r := w + x;
    forall i | |w| <= i < |r| ensures r[i] == r[i - off] {
      assert r[i] == x[i - |w|] == w[i - off];
    }
    ExtendUnique(w, off, r);
  }

  // ---------------------------------------------------------------------
  // Lengths and sequences
  // ---------------------------------------------------------------------

  datatype Length = NoLength | Length(len: nat, next: nat)

  function LE16(lo: int, hi: int): int {
    lo + 256 * hi
  }

  /** A run of 255s closed by a smaller byte, starting at `i`. */
  function ReadRun(s: seq<byte>, i: nat): (r: Length)
    ensures r.Length? ==> i < r.next <= |s|
    decreases |s| - i
  {
    if i >= |s| then NoLength
    else if s[i] < 255 then Length(s[i], i + 1)
    else
      match ReadRun(s, i + 1)
      case NoLength => NoLength
      case Length(n, j) => Length(255 + n, j)
  }

  /** A length whose token nibble is `nibble` and whose extension starts at `i`. */
  function ReadLength(s: seq<byte>, i: nat, nibble: nat): (r: Length)
    ensures r.Length? && nibble == 15 ==> i < r.next <= |s|
  {
    if nibble < 15 then Length(nibble, i)
    else
      match ReadRun(s, i)
      case NoLength => NoLength
      case Length(n, j) => Length(15 + n, j)
  }

  /** One parsed sequence: where its literals start, how many there are and,
      unless it is the last one, its match and where the next token is. */
  datatype Sequence =
    | Malformed
    | Last(lit: nat, ll: nat)
    | Match(lit: nat, ll: nat, off: nat, ml: nat, next: nat)

  function ParseAt(s: seq<byte>, i: nat): (r: Sequence)
    ensures r.Last? ==> i < r.lit
    ensures r.Match? ==> i < r.lit
    ensures FitsIn(r, s)
  {
    if i >= |s| then Malformed
    else
      match ReadLength(s, i + 1, s[i] / 16)
      case NoLength => Malformed
      case Length(ll, lit) => ParseLiterals(s, s[i] % 16, lit, ll)
  }

  /** The sequence whose `ll` literals start at `lit`. */
  function ParseLiterals(s: seq<byte>, nibble: nat, lit: nat, ll: nat): (r: Sequence)
    ensures FitsIn(r, s) && (r != Malformed ==> r.lit == lit)
  {
    if lit + ll == |s| then Last(lit, ll)
    else if lit + ll + 2 > |s| then Malformed
    else ParseMatch(s, nibble, lit, ll)
  }

  function ParseMatch(s: seq<byte>, nibble: nat, lit: nat, ll: nat): (r: Sequence)
    requires lit + ll + 2 <= |s|
    ensures FitsIn(r, s) && (r != Malformed ==> r.Match? && r.lit == lit)
  {
    match ReadLength(s, lit + ll + 2, nibble)
    case NoLength => Malformed
    case Length(ml, next) =>
      Match(lit, ll, LE16(s[lit + ll], s[lit + ll + 1]), ml + MINMATCH, next)
  }

  ghost predicate FitsIn(q: Sequence, s: seq<byte>) {
    match q
    case Malformed => true
    case Last(lit, ll) => lit + ll == |s|
    case Match(lit, ll, off, ml, next) =>
      lit + ll + 2 <= next <= |s| && ml >= MINMATCH && off <= DISTANCE_MAX
  }

  /** The window after the sequence `q`, if that is not the last one. */
  function StepWindow(s: seq<byte>, q: Sequence, w: seq<byte>): (r: seq<byte>)
    requires q.Match? && q.lit + q.ll <= |s| && q.off <= |w| + q.ll
    ensures w <= r && |r| == |w| + q.ll + q.ml
  {
    Extend(w + s[q.lit..q.lit + q.ll], q.off, q.ml)
  }

  /** The reference decoder: decodes `s` from token position `i`, on top of the
      bytes `w` (history included), or fails. */
  function DecodeFrom(s: seq<byte>, i: nat, w: seq<byte>): (r: Option<seq<byte>>)
    ensures r.Some? ==> w <= r.value
    decreases |s| - i, 1
  {
    if i < |s| then DecodeSequence(s, i, w) else None
  }

  function DecodeSequence(s: seq<byte>, i: nat, w: seq<byte>): (r: Option<seq<byte>>)
    requires i < |s|
    ensures r.Some? ==> w <= r.value
    decreases |s| - i, 0
  {
    var q := ParseAt(s, i);
    match q
    case Malformed => None
    case Last(lit, ll) => Some(w + s[lit..lit + ll])
    case Match(_, ll, off, _, next) =>
      if off > |w| + ll then None
      else DecodeFrom(s, next, StepWindow(s, q, w))
  }

  /** The block decodes to exactly `end` bytes (history included), uses no
      offset 0, and obeys the parsing restrictions: the last match starts at
      least 12 bytes, and ends at least 5 bytes, before the end. */
  ghost predicate WellFormedFrom(s: seq<byte>, i: nat, w: seq<byte>, end: nat)
    decreases |s| - i, 1
  {
    i < |s| && WellFormedSequence(s, i, w, end)
  }

  ghost predicate WellFormedSequence(s: seq<byte>, i: nat, w: seq<byte>, end: nat)
    requires i < |s|
    decreases |s| - i, 0
  {
    var q := ParseAt(s, i);
    match q
    case Malformed => false
    case Last(_, ll) => |w| + ll == end
    case Match(_, ll, off, ml, next) =>
      && 1 <= off <= |w| + ll
      && |w| + ll + MFLIMIT <= end
      && |w| + ll + ml + LASTLITERALS <= end
      && WellFormedFrom(s, next, StepWindow(s, q, w), end)
  }

  /** What the sequence `q` at a token position means for the decoder. */
  lemma {:induction false} OneSequence(s: seq<byte>, i: nat, w: seq<byte>, end: nat)
    ensures DecodeFrom(s, i, w) ==
              match ParseAt(s, i)
              case Malformed => None
              case Last(lit, ll) => Some(w + s[lit..lit + ll])
              case Match(_, ll, off, _, next) =>
                if off > |w| + ll then None else DecodeFrom(s, next, StepWindow(s, ParseAt(s, i), w))
    ensures WellFormedFrom(s, i, w, end) <==>
              match ParseAt(s, i)
              case Malformed => false
              case Last(_, ll) => |w| + ll == end
              case Match(_, ll, off, ml, next) =>
                && 1 <= off <= |w| + ll
                && |w| + ll + MFLIMIT <= end && |w| + ll + ml + LASTLITERALS <= end
                && WellFormedFrom(s, next, StepWindow(s, ParseAt(s, i), w), end)
  {
    if i < |s| {
      assert DecodeFrom(s, i, w) == DecodeSequence(s, i, w);
      assert WellFormedFrom(s, i, w, end) == WellFormedSequence(s, i, w, end);
    }
  }

  /** A whole block on top of the history `h`. */
  function Decode(s: seq<byte>, h: seq<byte>): Option<seq<byte>> {
    DecodeFrom(s, 0, h)
  }

  ghost predicate WellFormed(s: seq<byte>, h: seq<byte>, end: nat) {
    WellFormedFrom(s, 0, h, end)
  }

  lemma {:induction false} WellFormedDecodes(s: seq<byte>, i: nat, w: seq<byte>, end: nat)
    requires WellFormedFrom(s, i, w, end)
    ensures DecodeFrom(s, i, w).Some? && |DecodeFrom(s, i, w).value| == end
    decreases |s| - i
  {
    OneSequence(s, i, w, end);
    match ParseAt(s, i)
    case Last(lit, ll) =>
    case Match(lit, ll, off, ml, next) =>
      WellFormedDecodes(s, next, StepWindow(s, ParseAt(s, i), w), end);
  }

  /** After a match a token and five literals are still to come. */
  lemma {:induction false} WellFormedRoom(s: seq<byte>, i: nat, w: seq<byte>, end: nat)
    requires WellFormedFrom(s, i, w, end) && |w| + LASTLITERALS <= end
    ensures i + 1 + LASTLITERALS <= |s|
    decreases |s| - i
  {
    OneSequence(s, i, w, end);
    match ParseAt(s, i)
    case Last(lit, ll) =>
    case Match(lit, ll, off, ml, next) =>
      WellFormedRoom(s, next, StepWindow(s, ParseAt(s, i), w), end);
  }

  lemma StepHistory(s: seq<byte>, q: Sequence, h: seq<byte>, w: seq<byte>)
    requires q.Match? && q.lit + q.ll <= |s| && q.off <= |w| + q.ll
    ensures StepWindow(s, q, h + w) == h + StepWindow(s, q, w)
  {
    var w1 := w + s[q.lit..q.lit + q.ll];
    assert h + w + s[q.lit..q.lit + q.ll] == h + w1;
    ExtendHistory(h, w1, q.off, q.ml);
  }

  /** More history changes neither the decoded bytes nor well-formedness. */
  lemma {:induction false} DecodeHistory(s: seq<byte>, i: nat, h: seq<byte>, w: seq<byte>, end: nat)
    requires DecodeFrom(s, i, w).Some?
    ensures DecodeFrom(s, i, h + w) == Some(h + DecodeFrom(s, i, w).value)
    ensures WellFormedFrom(s, i, w, end) ==> WellFormedFrom(s, i, h + w, |h| + end)
    decreases |s| - i
  {
    OneSequence(s, i, w, end);
    OneSequence(s, i, h + w, |h| + end);
    match ParseAt(s, i)
    case Last(lit, ll) =>
      assert h + w + s[lit..lit + ll] == h + (w + s[lit..lit + ll]);
    case Match(lit, ll, off, ml, next) =>
      StepHistory(s, ParseAt(s, i), h, w);
      DecodeHistory(s, next, h, StepWindow(s, ParseAt(s, i), w), end);
  }

  /** Beyond the largest offset, history does not matter at all. */
  lemma {:induction false} DecodeFarHistory(s: seq<byte>, i: nat, h: seq<byte>, w: seq<byte>, end: nat)
    requires |w| >= DISTANCE_MAX
    ensures DecodeFrom(s, i, h + w).Some? ==> DecodeFrom(s, i, w).Some?
    ensures WellFormedFrom(s, i, h + w, |h| + end) ==> WellFormedFrom(s, i, w, end)
    decreases |s| - i
  {
    var q := ParseAt(s, i);
    OneSequence(s, i, w, end);
    OneSequence(s, i, h + w, |h| + end);
    if q.Match? {
      StepHistory(s, q, h, w);
      DecodeFarHistory(s, q.next, h, StepWindow(s, q, w), end);
    }
  }

  /** The block decodes on top of `h`, within the parsing restrictions. */
  ghost predicate WellFormedBlock(s: seq<byte>, h: seq<byte>) {
    Decode(s, h).Some? && WellFormed(s, h, |Decode(s, h).value|)
  }

  lemma WellFormedBlockHistory(s: seq<byte>, g: seq<byte>, h: seq<byte>)
    ensures Decode(s, h).Some? ==> Decode(s, g + h) == Some(g + Decode(s, h).value)
    ensures WellFormedBlock(s, h) ==> WellFormedBlock(s, g + h)
    ensures |h| >= DISTANCE_MAX ==> (Decode(s, g + h).Some? <==> Decode(s, h).Some?)
    ensures |h| >= DISTANCE_MAX ==> (WellFormedBlock(s, g + h) <==> WellFormedBlock(s, h))
  {
    if Decode(s, h).Some? {
      DecodeHistory(s, 0, g, h, |Decode(s, h).value|);
    }
    if |h| >= DISTANCE_MAX {
      DecodeFarHistory(s, 0, g, h, if Decode(s, h).Some? then |Decode(s, h).value| else 0);
    }
  }
}
