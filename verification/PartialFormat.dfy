/** Partial decoding: what comes of any bytes at all when only the first bytes of the
    output are wanted. */
module PartialFormat {
  import opened Bytes
  import opened BlockFormat

  /** The result: a rejection, the bytes decoded (history included), or neither, where an
      offset of 0 refers to bytes that were never written. */
  datatype Partial = Broken | Output(bytes: seq<byte>) | Unsettled

  /** What one sequence comes to: a rejection, an end within or right behind its literals,
      or a match, and the next token. */
  datatype PartialStep = Reject | Halt(out: seq<byte>) | Proceed(next: nat, off: nat, out: seq<byte>)

  function Cut(w: seq<byte>, n: nat): (r: seq<byte>)
    ensures r <= w && |r| == Min(|w|, n)
  {
    if |w| <= n then w else w[..n]
  }

  /** How many of `ll` literals at `lit` are there, and fit. */
  function LiteralsLeft(s: seq<byte>, lit: nat, ll: nat, used: nat, room: nat): (k: nat)
    requires lit <= |s| && used <= room
    ensures k <= ll && lit + k <= |s| && used + k <= room
  {
    Min(ll, Min(|s| - lit, room - used))
  }

  /** The sequence whose `ll` literals start at `lit`, on top of `w`. */
  function StepLiterals(s: seq<byte>, nibble: nat, lit: nat, ll: nat, w: seq<byte>, room: nat): (p: PartialStep)
    requires lit <= |s| && |w| <= room
  {
    var k := LiteralsLeft(s, lit, ll, |w|, room);
    var out := w + s[lit..lit + k];
    if |out| == room || lit + k + 2 >= |s| then Halt(out) else StepMatch(s, nibble, lit + k, out, room)
  }

  /** Its match, on top of `w`: the offset is at `i`. */
  function StepMatch(s: seq<byte>, nibble: nat, i: nat, w: seq<byte>, room: nat): (p: PartialStep)
    requires i + 2 <= |s|
  {
    match ReadLength(s, i + 2, nibble)
    case NoLength => Reject
    case Length(ml, next) =>
      if nibble >= ML_MASK && next + LASTLITERALS - 1 > |s| then Reject
      else CopyStep(w, LE16(s[i], s[i + 1]), ml + MINMATCH, next, room)
  }

  function CopyStep(w: seq<byte>, off: nat, ml: nat, next: nat, room: nat): (p: PartialStep)
    ensures p.Proceed? ==> p.next == next && p.off == off && |p.out| <= room
  {
    if off > |w| then Reject else Proceed(next, off, Cut(Extend(w, off, ml), room))
  }

  function StepAt(s: seq<byte>, i: nat, w: seq<byte>, room: nat): (p: PartialStep)
    requires |w| <= room
    ensures p.Proceed? ==> i < p.next <= |s| && |p.out| <= room
  {
    if i >= |s| then Reject
    else
      match ReadLength(s, i + 1, s[i] / 16)
      case NoLength => Reject
      case Length(ll, lit) =>
        if s[i] / 16 == RUN_MASK && lit + RUN_MASK > |s| then Reject
        else StepLiterals(s, s[i] % 16, lit, ll, w, room)
  }

  /** From token `i` on, with `w` decoded. A match that fills the room ends the decode; to be
      `strict` is to read the next token first, as is done behind a match that lies in an
      external dictionary. */
  function PartialFrom(s: seq<byte>, i: nat, w: seq<byte>, room: nat, strict: bool): (r: Partial)
    requires |w| <= room
    decreases |s| - i, 1
  {
    if i < |s| then PartialSequence(s, i, w, room, strict) else Broken
  }

  function PartialSequence(s: seq<byte>, i: nat, w: seq<byte>, room: nat, strict: bool): (r: Partial)
    requires |w| <= room && i < |s|
    decreases |s| - i, 0
  {
    match StepAt(s, i, w, room)
    case Reject => Broken
    case Halt(out) => Output(out)
    case Proceed(next, off, out) =>
      if off == 0 then Unsettled
      else if |out| == room && !strict then Output(out)
      else PartialFrom(s, next, out, room, strict)
  }

  /** A partial decode of `s` on top of `h`, for `n` bytes. */
  function PartialDecode(s: seq<byte>, h: seq<byte>, n: nat, strict: bool): Partial {
    if n == 0 then Output(h) else PartialFrom(s, 0, h, |h| + n, strict)
  }

  /** What one step at a token means for the rest. */
  lemma {:induction false} OneStep(s: seq<byte>, i: nat, w: seq<byte>, room: nat, strict: bool)
    requires |w| <= room
    ensures PartialFrom(s, i, w, room, strict) ==
              match StepAt(s, i, w, room)
              case Reject => Broken
              case Halt(out) => Output(out)
              case Proceed(next, off, out) =>
                if off == 0 then Unsettled
                else if |out| == room && !strict then Output(out)
                else PartialFrom(s, next, out, room, strict)
  {
    if i < |s| {
      assert PartialFrom(s, i, w, room, strict) == PartialSequence(s, i, w, room, strict);
    }
  }

  /** The literals, once the token at `i` and their length are read. */
  lemma {:induction false} OneToken(s: seq<byte>, i: nat, w: seq<byte>, room: nat, nibble: nat, ll: nat, lit: nat)
    requires i < |s| && |w| <= room && nibble == s[i] / 16 && ReadLength(s, i + 1, nibble) == Length(ll, lit)
    ensures lit <= |s|
    ensures StepAt(s, i, w, room) ==
              if nibble == RUN_MASK && lit + RUN_MASK > |s| then Reject
              else StepLiterals(s, s[i] % 16, lit, ll, w, room)
  {
  }

  /** The match at the offset `i`, once that and its length are read. */
  lemma {:induction false} OneMatch(s: seq<byte>, nibble: nat, i: nat, w: seq<byte>, room: nat, off: nat, ml: nat, next: nat)
    requires i + 2 <= |s| && off == LE16(s[i], s[i + 1])
    requires var r := ReadLength(s, i + 2, nibble); r.Length? && r.next == next && ml == r.len + MINMATCH
    ensures StepMatch(s, nibble, i, w, room) ==
              if nibble >= ML_MASK && next + LASTLITERALS - 1 > |s| then Reject else CopyStep(w, off, ml, next, room)
  {
  }

  /** Literals that are all there, with room and input to spare. */
  lemma {:induction false} AllLiterals(s: seq<byte>, nibble: nat, lit: nat, ll: nat, w: seq<byte>, room: nat)
    requires lit + ll + 2 < |s| && |w| + ll < room
    ensures StepLiterals(s, nibble, lit, ll, w, room) == StepMatch(s, nibble, lit + ll, w + s[lit..lit + ll], room)
  {
  }

  /** Literals that end the decode. */
  lemma {:induction false} LiteralsEnd(s: seq<byte>, nibble: nat, lit: nat, ll: nat, w: seq<byte>, room: nat, k: nat)
    requires lit <= |s| && |w| <= room && k == LiteralsLeft(s, lit, ll, |w|, room)
    requires |w| + ll >= room || lit + ll + 2 >= |s|
    ensures StepLiterals(s, nibble, lit, ll, w, room) == Halt(w + s[lit..lit + k])
  {
  }

  /** With a full output there is nothing left to decode, only to reject. */
  lemma {:induction false} FullOutput(s: seq<byte>, i: nat, w: seq<byte>, room: nat)
    requires |w| == room
    ensures StepAt(s, i, w, room) == Reject || StepAt(s, i, w, room) == Halt(w)
  {
  }

  /** A strict result is a result. */
  lemma {:induction false} StrictIsLenient(s: seq<byte>, i: nat, w: seq<byte>, room: nat)
    requires |w| <= room && PartialFrom(s, i, w, room, true).Output?
    ensures PartialFrom(s, i, w, room, false) == PartialFrom(s, i, w, room, true)
    decreases |s| - i
  {
    OneStep(s, i, w, room, true);
    OneStep(s, i, w, room, false);
    match StepAt(s, i, w, room)
    case Halt(_) =>
    case Proceed(next, _, out) =>
      if |out| == room {
        OneStep(s, next, out, room, true);
        FullOutput(s, next, out, room);
      } else {
        StrictIsLenient(s, next, out, room);
      }
  }

  // ---------------------------------------------------------------------
  // History out of reach
  // ---------------------------------------------------------------------

  function Behind(g: seq<byte>, r: Partial): Partial {
    if r.Output? then Output(g + r.bytes) else r
  }

  function StepBehind(g: seq<byte>, p: PartialStep): PartialStep {
    match p
    case Reject => Reject
    case Halt(out) => Halt(g + out)
    case Proceed(next, off, out) => Proceed(next, off, g + out)
  }

  lemma {:induction false} StepFarHistory(s: seq<byte>, i: nat, g: seq<byte>, w: seq<byte>, gw: seq<byte>, room: nat, more: nat)
    requires DISTANCE_MAX <= |w| <= room && gw == g + w && more == |g| + room
    ensures StepAt(s, i, gw, more) == StepBehind(g, StepAt(s, i, w, room))
  {
    if i < |s| {
      match ReadLength(s, i + 1, s[i] / 16)
      case NoLength =>
      case Length(ll, lit) =>
        OneToken(s, i, w, room, s[i] / 16, ll, lit);
        OneToken(s, i, gw, more, s[i] / 16, ll, lit);
        LiteralsFarHistory(s, s[i] % 16, lit, ll, g, w, gw, room, more);
    }
  }

  lemma {:induction false} LiteralsFarHistory(s: seq<byte>, nibble: nat, lit: nat, ll: nat,
                                              g: seq<byte>, w: seq<byte>, gw: seq<byte>, room: nat, more: nat)
    requires lit <= |s| && DISTANCE_MAX <= |w| <= room && gw == g + w && more == |g| + room
    ensures StepLiterals(s, nibble, lit, ll, gw, more) == StepBehind(g, StepLiterals(s, nibble, lit, ll, w, room))
  {
    if |w| + ll < room && lit + ll + 2 < |s| {
      var x := s[lit..lit + ll];
      AllLiterals(s, nibble, lit, ll, w, room);
      AllLiterals(s, nibble, lit, ll, gw, more);
      AppendBehind(g, w, gw, x);
      MatchFarHistory(s, nibble, lit + ll, g, w + x, gw + x, room, more);
    } else {
      EndFarHistory(s, nibble, lit, ll, g, w, gw, room, more);
    }
  }

  lemma {:induction false} EndFarHistory(s: seq<byte>, nibble: nat, lit: nat, ll: nat,
                                         g: seq<byte>, w: seq<byte>, gw: seq<byte>, room: nat, more: nat)
    requires lit <= |s| && |w| <= room && gw == g + w && more == |g| + room
    requires |w| + ll >= room || lit + ll + 2 >= |s|
    ensures StepLiterals(s, nibble, lit, ll, gw, more) == StepBehind(g, StepLiterals(s, nibble, lit, ll, w, room))
  {
    var k := LiteralsLeft(s, lit, ll, |w|, room);
    LiteralsEnd(s, nibble, lit, ll, w, room, k);
    LiteralsEnd(s, nibble, lit, ll, gw, more, k);
    AppendBehind(g, w, gw, s[lit..lit + k]);
  }

  lemma AppendBehind(g: seq<byte>, w: seq<byte>, gw: seq<byte>, x: seq<byte>)
    requires gw == g + w
    ensures gw + x == g + (w + x)
  {
  }

  lemma {:induction false} MatchFarHistory(s: seq<byte>, nibble: nat, i: nat, g: seq<byte>, w: seq<byte>, gw: seq<byte>,
                                           room: nat, more: nat)
    requires i + 2 <= |s| && DISTANCE_MAX <= |w| <= room && gw == g + w && more == |g| + room
    ensures StepMatch(s, nibble, i, gw, more) == StepBehind(g, StepMatch(s, nibble, i, w, room))
  {
    match ReadLength(s, i + 2, nibble)
    case NoLength =>
    case Length(l, next) =>
      var off, ml := LE16(s[i], s[i + 1]), l + MINMATCH;
      OneMatch(s, nibble, i, w, room, off, ml, next);
      OneMatch(s, nibble, i, gw, more, off, ml, next);
      CopyFarHistory(g, w, off, ml, next, room);
  }

  lemma {:induction false} CopyFarHistory(g: seq<byte>, w: seq<byte>, off: nat, ml: nat, next: nat, room: nat)
    requires off <= DISTANCE_MAX <= |w| <= room
    ensures CopyStep(g + w, off, ml, next, |g| + room) == StepBehind(g, CopyStep(w, off, ml, next, room))
  {
    ExtendHistory(g, w, off, ml);
    CutBehind(g, Extend(w, off, ml), room);
  }

  lemma CutBehind(g: seq<byte>, w: seq<byte>, n: nat)
    ensures Cut(g + w, |g| + n) == g + Cut(w, n)
  {
  }

  lemma {:induction false} FromFarHistory(s: seq<byte>, i: nat, g: seq<byte>, w: seq<byte>, gw: seq<byte>,
                                          room: nat, more: nat, strict: bool)
    requires DISTANCE_MAX <= |w| <= room && gw == g + w && more == |g| + room
    ensures PartialFrom(s, i, gw, more, strict) == Behind(g, PartialFrom(s, i, w, room, strict))
    decreases |s| - i
  {
    OneStep(s, i, w, room, strict);
    OneStep(s, i, gw, more, strict);
    StepFarHistory(s, i, g, w, gw, room, more);
    var p := StepAt(s, i, w, room);
    if p.Proceed? && p.off != 0 && !(|p.out| == room && !strict) {
      StepGrows(s, i, w, room);
      FromFarHistory(s, p.next, g, p.out, g + p.out, room, more, strict);
    }
  }

  /** A step only adds. */
  lemma {:induction false} StepGrows(s: seq<byte>, i: nat, w: seq<byte>, room: nat)
    requires |w| <= room
    ensures var p := StepAt(s, i, w, room); !p.Reject? ==> w <= p.out && |p.out| <= room
  {
  }

  lemma PartialFarHistory(s: seq<byte>, g: seq<byte>, h: seq<byte>, n: nat, strict: bool)
    requires |h| >= DISTANCE_MAX
    ensures PartialDecode(s, g + h, n, strict) == Behind(g, PartialDecode(s, h, n, strict))
  {
    if n > 0 {
      FromFarHistory(s, 0, g, h, g + h, |h| + n, |g + h| + n, strict);
    }
  }
}
