/** Partial decodes of well-formed blocks: of the block itself, of a source that goes on
    behind it, and of one that is cut short. */
module PartialBlocks {
  import opened Bytes
  import opened BlockFormat
  import opened PartialFormat

  // ---------------------------------------------------------------------
  // Sources with the same beginning
  // ---------------------------------------------------------------------

  lemma {:induction false} SameRun(b: seq<byte>, s: seq<byte>, m: nat, i: nat)
    requires m <= |b| && m <= |s| && b[..m] == s[..m]
    requires ReadRun(b, i).Length? && ReadRun(b, i).next <= m
    ensures ReadRun(s, i) == ReadRun(b, i)
    decreases |b| - i
  {
    SameAt(b, s, m, i);
    if b[i] == 255 {
      SameRun(b, s, m, i + 1);
    }
  }

  lemma {:induction false} SameLength(b: seq<byte>, s: seq<byte>, m: nat, i: nat, nibble: nat)
    requires m <= |b| && m <= |s| && b[..m] == s[..m]
    requires ReadLength(b, i, nibble).Length? && ReadLength(b, i, nibble).next <= m
    ensures ReadLength(s, i, nibble) == ReadLength(b, i, nibble)
  {
    if nibble >= 15 {
      SameRun(b, s, m, i);
    }
  }

  lemma SameAt(b: seq<byte>, s: seq<byte>, m: nat, i: nat)
    requires m <= |b| && m <= |s| && b[..m] == s[..m] && i < m
    ensures b[i] == s[i]
  {
    assert b[i] == b[..m][i];
  }

  lemma SameBytes(b: seq<byte>, s: seq<byte>, m: nat, lo: nat, hi: nat)
    requires m <= |b| && m <= |s| && b[..m] == s[..m] && lo <= hi <= m
    ensures b[lo..hi] == s[lo..hi]
  {
    assert b[lo..hi] == b[..m][lo..hi];
    assert s[lo..hi] == s[..m][lo..hi];
  }

  /** The token and the literal length of a sequence. */
  lemma {:induction false} SameToken(b: seq<byte>, s: seq<byte>, m: nat, i: nat, lit: nat, ll: nat, w: seq<byte>, room: nat)
    requires m <= |b| && m <= |s| && b[..m] == s[..m] && |w| <= room
    requires i < lit <= m && ReadLength(b, i + 1, b[i] / 16) == Length(ll, lit)
    requires ll >= RUN_MASK ==> lit + RUN_MASK <= |s|
    ensures StepAt(s, i, w, room) == StepLiterals(s, b[i] % 16, lit, ll, w, room)
  {
    SameAt(b, s, m, i);
    SameLength(b, s, m, i + 1, b[i] / 16);
  }

  lemma {:induction false} ParsedToken(b: seq<byte>, i: nat)
    ensures var q := ParseAt(b, i);
            q != Malformed ==> i < |b| && i < q.lit && ReadLength(b, i + 1, b[i] / 16) == Length(q.ll, q.lit)
  {
  }

  /** Literals that fill the output. */
  lemma {:induction false} FullLiterals(b: seq<byte>, s: seq<byte>, m: nat, nibble: nat, lit: nat, ll: nat, w: seq<byte>, room: nat)
    requires m <= |b| && m <= |s| && b[..m] == s[..m]
    requires lit + ll <= m && |w| <= room <= |w| + ll
    ensures StepLiterals(s, nibble, lit, ll, w, room) == Halt(Cut(w + b[lit..lit + ll], room))
  {
    var k := room - |w|;
    SameBytes(b, s, m, lit, lit + k);
    CutLiterals(w, b[lit..lit + ll], room);
    SliceOfSlice(b, lit, lit + ll, k);
  }

  /** The match of the sequence, as it is written behind its literals. */
  ghost predicate MatchRead(b: seq<byte>, nibble: nat, q: Sequence) {
    && q.Match? && FitsIn(q, b)
    && q.off == LE16(b[q.lit + q.ll], b[q.lit + q.ll + 1])
    && var r := ReadLength(b, q.lit + q.ll + 2, nibble); r.Length? && r.next == q.next && q.ml == r.len + MINMATCH
  }

  lemma {:induction false} ParsedMatch(b: seq<byte>, i: nat)
    requires ParseAt(b, i).Match?
    ensures i < |b| && MatchRead(b, b[i] % 16, ParseAt(b, i))
  {
  }

  lemma {:induction false} Copies(b: seq<byte>, q: Sequence, w: seq<byte>, room: nat)
    requires q.Match? && FitsIn(q, b) && q.off <= |w| + q.ll
    ensures CopyStep(w + b[q.lit..q.lit + q.ll], q.off, q.ml, q.next, room)
              == Proceed(q.next, q.off, Cut(StepWindow(b, q, w), room))
  {
  }

  lemma {:induction false} CompleteMatch(b: seq<byte>, s: seq<byte>, m: nat, nibble: nat, q: Sequence, w: seq<byte>, room: nat)
    requires m <= |b| && m <= |s| && b[..m] == s[..m]
    requires MatchRead(b, nibble, q) && q.next <= m && q.off <= |w|
    requires nibble >= ML_MASK ==> q.next + LASTLITERALS - 1 <= |s|
    ensures StepMatch(s, nibble, q.lit + q.ll, w, room) == CopyStep(w, q.off, q.ml, q.next, room)
  {
    var at := q.lit + q.ll;
    SameLength(b, s, m, at + 2, nibble);
    SameAt(b, s, m, at);
    SameAt(b, s, m, at + 1);
    OneMatch(s, nibble, at, w, room, q.off, q.ml, q.next);
  }

  /** A sequence of `b` that is all there in `s`. */
  lemma {:induction false} CompleteLiterals(b: seq<byte>, s: seq<byte>, m: nat, nibble: nat, q: Sequence, w: seq<byte>, room: nat)
    requires m <= |b| && m <= |s| && b[..m] == s[..m] && |w| <= room
    requires MatchRead(b, nibble, q) && q.next <= m && q.next + LASTLITERALS - 1 <= |s| && q.off <= |w| + q.ll
    ensures StepLiterals(s, nibble, q.lit, q.ll, w, room) ==
              if |w| + q.ll >= room then Halt(Cut(w + b[q.lit..q.lit + q.ll], room))
              else Proceed(q.next, q.off, Cut(StepWindow(b, q, w), room))
  {
    if |w| + q.ll >= room {
      FullLiterals(b, s, m, nibble, q.lit, q.ll, w, room);
    } else {
      AllLiterals(s, nibble, q.lit, q.ll, w, room);
      SameBytes(b, s, m, q.lit, q.lit + q.ll);
      CompleteMatch(b, s, m, nibble, q, w + b[q.lit..q.lit + q.ll], room);
      Copies(b, q, w, room);
    }
  }

  lemma {:induction false} CompleteStep(b: seq<byte>, s: seq<byte>, m: nat, i: nat, q: Sequence, w: seq<byte>, room: nat)
    requires m <= |b| && m <= |s| && b[..m] == s[..m] && |w| <= room
    requires q == ParseAt(b, i) && q.Match? && q.next <= m && q.next + LASTLITERALS - 1 <= |s| && q.off <= |w| + q.ll
    ensures StepAt(s, i, w, room) ==
              if |w| + q.ll >= room then Halt(Cut(w + b[q.lit..q.lit + q.ll], room))
              else Proceed(q.next, q.off, Cut(StepWindow(b, q, w), room))
  {
    ParsedToken(b, i);
    ParsedMatch(b, i);
    SameToken(b, s, m, i, q.lit, q.ll, w, room);
    CompleteLiterals(b, s, m, b[i] % 16, q, w, room);
  }

  lemma CutLiterals(w: seq<byte>, x: seq<byte>, room: nat)
    requires |w| <= room <= |w| + |x|
    ensures Cut(w + x, room) == w + x[..room - |w|]
  {
  }

  lemma CutLonger(w: seq<byte>, d: seq<byte>, room: nat)
    requires w <= d && room <= |w|
    ensures Cut(w, room) == Cut(d, room)
  {
    assert w == d[..|w|];
  }

  // ---------------------------------------------------------------------
  // A block, and whatever lies behind it
  // ---------------------------------------------------------------------

  /** The last sequence of a block. */
  lemma {:induction false} LastStep(b: seq<byte>, s: seq<byte>, i: nat, w: seq<byte>, room: nat)
    requires b <= s && |w| <= room
    requires var q := ParseAt(b, i); q.Last? && (room <= |w| + q.ll || s == b)
    ensures var q := ParseAt(b, i); StepAt(s, i, w, room) == Halt(Cut(w + b[q.lit..q.lit + q.ll], room))
  {
    var q := ParseAt(b, i);
    ParsedToken(b, i);
    SameToken(b, s, |b|, i, q.lit, q.ll, w, room);
    if |w| + q.ll >= room {
      FullLiterals(b, s, |b|, b[i] % 16, q.lit, q.ll, w, room);
    }
  }

  lemma {:induction false} BlockStep(b: seq<byte>, s: seq<byte>, i: nat, w: seq<byte>, end: nat, room: nat)
    requires b <= s && |w| <= room && WellFormedFrom(b, i, w, end) && (room <= end || s == b)
    ensures match ParseAt(b, i)
            case Malformed => false
            case Last(lit, ll) => StepAt(s, i, w, room) == Halt(Cut(w + b[lit..lit + ll], room))
            case Match(lit, ll, off, _, next) =>
              && 1 <= off <= |w| + ll
              && StepAt(s, i, w, room) ==
                   if |w| + ll >= room then Halt(Cut(w + b[lit..lit + ll], room))
                   else Proceed(next, off, Cut(StepWindow(b, ParseAt(b, i), w), room))
  {
    OneSequence(b, i, w, end);
    var q := ParseAt(b, i);
    if q.Match? {
      WellFormedRoom(b, q.next, StepWindow(b, q, w), end);
      CompleteStep(b, s, |b|, i, q, w, room);
    } else {
      LastStep(b, s, i, w, room);
    }
  }

  /** A partial decode of a block gives the first bytes of what the block decodes to, up to
      the room there is. If there is more behind the block, the room must not exceed that. */
  lemma {:induction false} PartOfMore(b: seq<byte>, s: seq<byte>, i: nat, w: seq<byte>, end: nat, room: nat, strict: bool)
    requires b <= s && |w| <= room && WellFormedFrom(b, i, w, end) && (room <= end || s == b)
    ensures DecodeFrom(b, i, w).Some?
    ensures PartialFrom(s, i, w, room, strict) == Output(Cut(DecodeFrom(b, i, w).value, room))
    decreases |b| - i
  {
    OneSequence(b, i, w, end);
    WellFormedDecodes(b, i, w, end);
    var q, d := ParseAt(b, i), DecodeFrom(b, i, w).value;
    if q.Match? {
      var v := StepWindow(b, q, w);
      if |v| <= room {
        PartOfMore(b, s, q.next, v, end, room, strict);
      } else {
        FullBeforeBlock(b, s, q.next, v, end, Cut(v, room));
      }
    }
    PassedInBlock(b, s, i, w, end, d, room, strict);
  }

  /** One sequence of the block. */
  lemma {:induction false} PassedInBlock(b: seq<byte>, s: seq<byte>, i: nat, w: seq<byte>, end: nat, d: seq<byte>,
                                         room: nat, strict: bool)
    requires b <= s && |w| <= room && WellFormedFrom(b, i, w, end) && (room <= end || s == b)
    requires match ParseAt(b, i)
             case Malformed => false
             case Last(lit, ll) => d == w + b[lit..lit + ll]
             case Match(_, ll, off, _, next) =>
               off <= |w| + ll &&
               var v := StepWindow(b, ParseAt(b, i), w);
               && v <= d
               && if |v| <= room then PartialFrom(s, next, v, room, strict) == Output(Cut(d, room))
                  else PartialFrom(s, next, Cut(v, room), room, true) == Output(Cut(v, room))
    ensures PartialFrom(s, i, w, room, strict) == Output(Cut(d, room))
  {
    BlockStep(b, s, i, w, end, room);
    OneStep(s, i, w, room, strict);
    var q := ParseAt(b, i);
    if q.Match? {
      var v := StepWindow(b, q, w);
      if |w| + q.ll >= room {
        CutLonger(w + b[q.lit..q.lit + q.ll], d, room);
      } else if |v| >= room {
        CutLonger(v, d, room);
      }
    }
  }

  /** A full output in front of a well-formed rest is an output. */
  lemma {:induction false} FullBeforeBlock(b: seq<byte>, s: seq<byte>, i: nat, v: seq<byte>, end: nat, out: seq<byte>)
    requires b <= s && WellFormedFrom(b, i, v, end)
    ensures PartialFrom(s, i, out, |out|, true) == Output(out)
  {
    OneSequence(b, i, v, end);
    OneStep(s, i, out, |out|, true);
    ParsedToken(b, i);
    var q := ParseAt(b, i);
    SameToken(b, s, |b|, i, q.lit, q.ll, out, |out|);
  }

  // ---------------------------------------------------------------------
  // A block that is cut short
  // ---------------------------------------------------------------------

  /** Read from token `i` on, the sequences of `b` lead to token `t`, and their bytes
      make `w` into `v`. */
  ghost predicate Reaches(b: seq<byte>, i: nat, w: seq<byte>, t: nat, v: seq<byte>)
    decreases |b| - i, 1
  {
    (i == t && w == v) || (i < t && i < |b| && ReachesBeyond(b, i, w, t, v))
  }

  ghost predicate ReachesBeyond(b: seq<byte>, i: nat, w: seq<byte>, t: nat, v: seq<byte>)
    requires i < |b|
    decreases |b| - i, 0
  {
    var q := ParseAt(b, i);
    q.Match? && 1 <= q.off <= |w| + q.ll && Reaches(b, q.next, StepWindow(b, q, w), t, v)
  }

  lemma {:induction false} NextReached(b: seq<byte>, i: nat, w: seq<byte>, t: nat, v: seq<byte>)
    requires Reaches(b, i, w, t, v) && !(i == t && w == v)
    ensures i < t && i < |b|
    ensures var q := ParseAt(b, i);
            q.Match? && i < q.next && 1 <= q.off <= |w| + q.ll && Reaches(b, q.next, StepWindow(b, q, w), t, v)
  {
    assert ReachesBeyond(b, i, w, t, v);
  }

  lemma {:induction false} ReachedLonger(b: seq<byte>, i: nat, w: seq<byte>, t: nat, v: seq<byte>)
    requires Reaches(b, i, w, t, v)
    ensures i <= t && w <= v
    decreases |b| - i
  {
    if !(i == t && w == v) {
      NextReached(b, i, w, t, v);
      var q := ParseAt(b, i);
      ReachedLonger(b, q.next, StepWindow(b, q, w), t, v);
    }
  }

  /** The cut is within the `ll` literals at `lit` of the sequence at `t`, or right behind
      them, and the token and the length in front of them can be read. */
  ghost predicate CutInside(b: seq<byte>, k: nat, t: nat, lit: nat, ll: nat) {
    && t < lit <= k <= |b| && k <= lit + ll + 2
    && ReadLength(b, t + 1, b[t] / 16) == Length(ll, lit)
    && (ll >= RUN_MASK ==> lit + RUN_MASK <= k)
  }

  /** The literals there are. */
  lemma {:induction false} CutStep(b: seq<byte>, k: nat, t: nat, v: seq<byte>, lit: nat, ll: nat, room: nat)
    requires CutInside(b, k, t, lit, ll) && |v| <= room
    ensures StepAt(b[..k], t, v, room) == Halt(Cut(v + b[lit..Min(k, lit + ll)], room))
  {
    var s, e := b[..k], Min(k, lit + ll);
    SameToken(b, s, k, t, lit, ll, v, room);
    var n := LiteralsLeft(s, lit, ll, |v|, room);
    SameBytes(b, s, k, lit, lit + n);
    if |v| + (e - lit) >= room {
      CutLiterals(v, b[lit..e], room);
      SliceOfSlice(b, lit, e, n);
    }
  }

  /** A block cut in a run of literals gives all that is there: what its complete sequences
      decode to, and the literals up to the end of the input, as far as there is room. */
  lemma {:induction false} PartOfCut(b: seq<byte>, k: nat, s: seq<byte>, i: nat, w: seq<byte>, t: nat, v: seq<byte>,
                                     lit: nat, ll: nat, x: seq<byte>, room: nat, strict: bool)
    requires Reaches(b, i, w, t, v) && CutInside(b, k, t, lit, ll) && |w| <= room
    requires s == b[..k] && x == v + b[lit..Min(k, lit + ll)]
    requires i < t ==> t + LASTLITERALS - 1 <= k
    ensures PartialFrom(s, i, w, room, strict) == Output(Cut(x, room))
    decreases |b| - i
  {
    ReachedLonger(b, i, w, t, v);
    if i == t {
      OneStep(s, i, w, room, strict);
      CutStep(b, k, t, v, lit, ll, room);
    } else {
      NextReached(b, i, w, t, v);
      var q := ParseAt(b, i);
      var u := StepWindow(b, q, w);
      ReachedLonger(b, q.next, u, t, v);
      if |u| <= room {
        PartOfCut(b, k, s, q.next, u, t, v, lit, ll, x, room, strict);
      } else {
        FullBeforeCut(b, k, s, q.next, u, t, v, lit, ll, Cut(u, room));
      }
      PassedBeforeCut(b, k, s, i, q, w, u, x, room, strict);
    }
  }

  /** A sequence before the one that is cut. */
  lemma {:induction false} PassedBeforeCut(b: seq<byte>, k: nat, s: seq<byte>, i: nat, q: Sequence, w: seq<byte>, u: seq<byte>,
                                           x: seq<byte>, room: nat, strict: bool)
    requires k <= |b| && s == b[..k] && |w| <= room && q == ParseAt(b, i) && q.Match? && q.next + LASTLITERALS - 1 <= k
    requires 1 <= q.off <= |w| + q.ll && u == StepWindow(b, q, w) && u <= x
    requires |u| <= room ==> PartialFrom(s, q.next, u, room, strict) == Output(Cut(x, room))
    requires |u| > room ==> PartialFrom(s, q.next, Cut(u, room), room, true) == Output(Cut(u, room))
    ensures PartialFrom(s, i, w, room, strict) == Output(Cut(x, room))
  {
    OneStep(s, i, w, room, strict);
    CompleteStep(b, s, k, i, q, w, room);
    if |w| + q.ll >= room {
      CutLonger(w + b[q.lit..q.lit + q.ll], x, room);
    } else if |u| >= room {
      CutLonger(u, x, room);
    }
  }

  lemma {:induction false} FullBeforeCut(b: seq<byte>, k: nat, s: seq<byte>, i: nat, w: seq<byte>, t: nat, v: seq<byte>,
                                         lit: nat, ll: nat, out: seq<byte>)
    requires Reaches(b, i, w, t, v) && CutInside(b, k, t, lit, ll) && s == b[..k]
    ensures PartialFrom(s, i, out, |out|, true) == Output(out)
  {
    OneStep(s, i, out, |out|, true);
    if i == t {
      SameToken(b, s, k, t, lit, ll, out, |out|);
    } else {
      NextReached(b, i, w, t, v);
      var q := ParseAt(b, i);
      ReachedLonger(b, q.next, StepWindow(b, q, w), t, v);
      ParsedToken(b, i);
      SameToken(b, s, k, i, q.lit, q.ll, out, |out|);
    }
  }

  /** Wherever a block is cut, what comes out is a beginning of what it decodes to. */
  lemma {:induction false} PartOfLess(b: seq<byte>, s: seq<byte>, i: nat, w: seq<byte>, end: nat, room: nat)
    requires s <= b && |w| <= room && WellFormedFrom(b, i, w, end)
    ensures DecodeFrom(b, i, w).Some?
    ensures var l := PartialFrom(s, i, w, room, false);
            !l.Unsettled? && (l.Output? ==> l.bytes <= DecodeFrom(b, i, w).value)
    decreases |b| - i
  {
    OneSequence(b, i, w, end);
    WellFormedDecodes(b, i, w, end);
    OneStep(s, i, w, room, false);
    LessStep(b, s, i, w, end, room);
    var p := StepAt(s, i, w, room);
    if p.Proceed? && |p.out| < room {
      PartOfLess(b, s, p.next, p.out, end, room);
    }
  }

  /** What a step may come to on a source that is cut short: a rejection, a beginning of
      what is to come, or the sequence of the block. */
  ghost predicate Follows(p: PartialStep, q: Sequence, b: seq<byte>, w: seq<byte>, room: nat, d: seq<byte>)
    requires FitsIn(q, b)
  {
    match p
    case Reject => true
    case Halt(out) => out <= d
    case Proceed(next, off, out) =>
      && q.Match? && 1 <= q.off <= |w| + q.ll && off == q.off && next == q.next
      && out == Cut(StepWindow(b, q, w), room) && out <= d
  }

  lemma {:induction false} LessStep(b: seq<byte>, s: seq<byte>, i: nat, w: seq<byte>, end: nat, room: nat)
    requires s <= b && |w| <= room && WellFormedFrom(b, i, w, end)
    ensures DecodeFrom(b, i, w).Some?
    ensures Follows(StepAt(s, i, w, room), ParseAt(b, i), b, w, room, DecodeFrom(b, i, w).value)
  {
    OneSequence(b, i, w, end);
    WellFormedDecodes(b, i, w, end);
    if !StepAt(s, i, w, room).Reject? {
      SameLength(s, b, |s|, i + 1, s[i] / 16);
      ParsedToken(b, i);
      if ParseAt(b, i).Match? {
        ParsedMatch(b, i);
      }
      LessLiterals(b, s, b[i] % 16, ParseAt(b, i), w, room, DecodeFrom(b, i, w).value, StepAt(s, i, w, room));
    }
  }

  lemma {:induction false} LessLiterals(b: seq<byte>, s: seq<byte>, nibble: nat, q: Sequence, w: seq<byte>, room: nat, d: seq<byte>,
                                        p: PartialStep)
    requires s <= b && |w| <= room && FitsIn(q, b) && q != Malformed && q.lit <= |s|
    requires w + b[q.lit..q.lit + q.ll] <= d
    requires q.Match? ==> MatchRead(b, nibble, q) && 1 <= q.off <= |w| + q.ll && StepWindow(b, q, w) <= d
    requires p == StepLiterals(s, nibble, q.lit, q.ll, w, room)
    ensures Follows(p, q, b, w, room, d)
  {
    if q.Match? && |w| + q.ll < room && q.lit + q.ll + 2 < |s| {
      AllLiterals(s, nibble, q.lit, q.ll, w, room);
      SameBytes(b, s, |s|, q.lit, q.lit + q.ll);
      LessMatch(b, s, nibble, q, w, room, d, p);
    } else {
      LastLiterals(b, s, nibble, q.lit, q.ll, w, room, d);
    }
  }

  /** Literals that are not followed by a match. */
  lemma {:induction false} LastLiterals(b: seq<byte>, s: seq<byte>, nibble: nat, lit: nat, ll: nat, w: seq<byte>, room: nat, d: seq<byte>)
    requires s <= b && |w| <= room && lit <= |s| && lit + ll <= |b| && w + b[lit..lit + ll] <= d
    requires |w| + ll >= room || lit + ll + 2 >= |s|
    ensures var p := StepLiterals(s, nibble, lit, ll, w, room); p.Halt? && p.out <= d
  {
    var k := LiteralsLeft(s, lit, ll, |w|, room);
    SameBytes(b, s, |s|, lit, lit + k);
    SliceOfSlice(b, lit, lit + ll, k);
    PrefixOfAppend(w, b[lit..lit + ll], k, d);
  }

  lemma PrefixThrough(h: seq<byte>, v: seq<byte>, y: seq<byte>)
    requires h <= v
    ensures h <= v + y
  {
  }

  lemma PrefixOfAppend(w: seq<byte>, x: seq<byte>, k: nat, d: seq<byte>)
    requires k <= |x| && w + x <= d
    ensures w + x[..k] <= d
  {
    assert w + x[..k] == (w + x)[..|w| + k];
  }

  lemma {:induction false} LessMatch(b: seq<byte>, s: seq<byte>, nibble: nat, q: Sequence, w: seq<byte>, room: nat, d: seq<byte>,
                                     p: PartialStep)
    requires s <= b && |w| <= room && MatchRead(b, nibble, q) && q.lit + q.ll + 2 < |s|
    requires 1 <= q.off <= |w| + q.ll && StepWindow(b, q, w) <= d
    requires p == StepMatch(s, nibble, q.lit + q.ll, w + b[q.lit..q.lit + q.ll], room)
    ensures Follows(p, q, b, w, room, d)
  {
    var r := ReadLength(s, q.lit + q.ll + 2, nibble);
    if r.Length? && (nibble >= ML_MASK ==> r.next + LASTLITERALS - 1 <= |s|) {
      SameLength(s, b, |s|, q.lit + q.ll + 2, nibble);
      CompleteMatch(b, s, |s|, nibble, q, w + b[q.lit..q.lit + q.ll], room);
      Copies(b, q, w, room);
    }
  }

  // ---------------------------------------------------------------------
  // From the start of a source
  // ---------------------------------------------------------------------

  lemma {:induction false} WholeOfMore(b: seq<byte>, s: seq<byte>, h: seq<byte>, d: seq<byte>, room: nat)
    requires WellFormedBlock(b, h) && Decode(b, h) == Some(d) && b <= s && |h| <= room && (s == b || room <= |d|)
    ensures h <= d && Settled(s, 0, h, room, d)
  {
    PartOfMore(b, s, 0, h, |d|, room, true);
    PartOfMore(b, s, 0, h, |d|, room, false);
  }

  /** The end of the input, seen from the start of it. */
  lemma {:induction false} WholeOfCut(b: seq<byte>, k: nat, s: seq<byte>, i: nat, h: seq<byte>, t: nat, v: seq<byte>,
                                      lit: nat, ll: nat, x: seq<byte>, room: nat)
    requires Reaches(b, i, h, t, v) && CutInside(b, k, t, lit, ll) && (t > i ==> t + LASTLITERALS - 1 <= k)
    requires s == b[..k] && x == v + b[lit..Min(k, lit + ll)] && |h| <= room
    ensures h <= x && Settled(s, i, h, room, x)
  {
    ReachedLonger(b, i, h, t, v);
    PrefixThrough(h, v, b[lit..Min(k, lit + ll)]);
    PartOfCut(b, k, s, i, h, t, v, lit, ll, x, room, true);
    PartOfCut(b, k, s, i, h, t, v, lit, ll, x, room, false);
  }

  /** Strict or not, a partial decode comes to `x`, as far as there is room. */
  ghost predicate Settled(s: seq<byte>, i: nat, w: seq<byte>, room: nat, x: seq<byte>)
    requires |w| <= room
  {
    PartialFrom(s, i, w, room, true) == PartialFrom(s, i, w, room, false) == Output(Cut(x, room))
  }
}
