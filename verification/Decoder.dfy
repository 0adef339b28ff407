/** LZ4_decompress_generic: the fast loop, the safe loop and the jumps between
    them, against the reference decoder. */
module Decoder {
  import opened Bytes
  import opened BlockFormat
  import opened PartialFormat
  import opened WideCopy
  import opened DecoderState
  import opened LiteralStage
  import opened MatchStage

  /** What an iteration of a full decode must achieve. */
  ghost predicate WholeGood(j: Job, g: Goal, a: seq<byte>, out: Outcome)
    requires j.Valid() && |a| == j.dst.Length && FitsIn(g.q, j.src)
  {
    match out
    case Next(ip, op) =>
      && j.start <= op <= j.oend && g.q.Match? && g.q.next == ip && g.q.off <= |g.full| + g.q.ll
      && j.Window(a, op) == StepWindow(j.src, g.q, g.full)
    case Done(op) =>
      j.start <= op <= j.oend && g.q.Last? && j.Window(a, op) == g.full + j.src[g.q.lit..g.q.lit + g.q.ll]
    case Fail(_) => j.Rejects(g.q, g.full)
    case _ => true
  }

  /** And of a partial one. The decode may go on even when the output is full. */
  ghost predicate PartGood(j: Job, g: Goal, a: seq<byte>, out: Outcome)
    requires j.Valid() && |a| == j.dst.Length
  {
    match out
    case Next(ip, op) =>
      && j.start <= op <= j.oend && g.p.Proceed? && g.p.next == ip
      && (g.p.off > 0 ==> j.Window(a, op) == g.p.out)
    case Done(op) =>
      && j.start <= op <= j.oend
      && (g.p.Halt? || (g.p.Proceed? && op == j.oend && |g.p.out| == j.Room()))
      && (g.p.Halt? || g.p.off > 0 ==> j.Window(a, op) == g.p.out)
    case Fail(_) => g.p == Reject
    case _ => true
  }

  ghost predicate Good(j: Job, g: Goal, a: seq<byte>, out: Outcome)
    requires j.Valid() && |a| == j.dst.Length && FitsIn(g.q, j.src)
  {
    && (if j.partial then PartGood(j, g, a, out) else WholeGood(j, g, a, out))
    && (out.Next? ==> out.ip < |j.src|)
  }

  // ---------------------------------------------------------------------
  // The stages of one iteration. `g.q` is the sequence being decoded.
  // ---------------------------------------------------------------------

  /** The literal length has been read; `ip` is at the first literal. */
  ghost predicate AtLiterals(j: Job, g: Goal, a: seq<byte>, token: byte, ip: nat, op: nat, length: nat)
    requires j.Valid() && |a| == j.dst.Length
  {
    && ip <= |j.src| && g.q == ParseLiterals(j.src, token % 16, ip, length)
    && j.start <= op <= j.oend && j.Window(a, op) == g.full
    && (j.partial ==> g.p == StepLiterals(j.src, token % 16, ip, length, g.full, j.Room()))
  }

  /** The literals, which start at `lit`, are copied; `ip` is at the offset. */
  ghost predicate AtOffset(j: Job, g: Goal, a: seq<byte>, token: byte, lit: nat, ip: nat, op: nat, offset: nat)
    requires j.Valid() && |a| == j.dst.Length
  {
    && lit <= ip && ip + 2 < |j.src| && g.q == ParseMatch(j.src, token % 16, lit, ip - lit)
    && offset == LE16(j.src[ip], j.src[ip + 1])
    && j.start <= op <= j.oend && (!j.partial ==> op + MFLIMIT <= j.oend)
    && j.Window(a, op) == g.full + j.src[lit..ip]
    && (j.partial ==> g.p == StepMatch(j.src, token % 16, ip, j.Window(a, op), j.Room()))
  }

  /** The match length has been read too; the sequence ends at `ip`. */
  ghost predicate AtMatch(j: Job, g: Goal, a: seq<byte>, ip: nat, op: nat, offset: nat, length: nat)
    requires j.Valid() && |a| == j.dst.Length
  {
    && ip < |j.src| && length >= MINMATCH
    && FitsIn(g.q, j.src) && g.q.Match? && g.q.off == offset && g.q.ml == length && g.q.next == ip
    && j.start <= op <= j.oend && (!j.partial ==> op + MFLIMIT <= j.oend)
    && j.Window(a, op) == g.full + j.src[g.q.lit..g.q.lit + g.q.ll]
    && (j.partial ==> g.p == CopyStep(j.Window(a, op), offset, length, ip, j.Room()))
  }

  /** All literals of the sequence have been copied and its offset is read. */
  lemma LiteralsCopied(j: Job, g: Goal, a: seq<byte>, token: byte, ip: nat, op: nat, length: nat,
                       b: seq<byte>, ip2: nat, op2: nat, offset: nat)
    requires j.Valid() && |a| == |b| == j.dst.Length
    requires AtLiterals(j, g, a, token, ip, op, length) && ip2 == ip + length && op2 == op + length
    requires ip2 + 2 < |j.src| && if j.partial then op2 < j.oend else op2 + MFLIMIT <= j.oend
    requires j.Window(b, op2) == j.Window(a, op) + j.src[ip..ip2]
    requires offset == LE16(j.src[ip2], j.src[ip2 + 1])
    ensures AtOffset(j, g, b, token, ip, ip2, op2, offset)
  {
    if j.partial {
      AllLiterals(j.src, token % 16, ip, length, g.full, j.Room());
    }
  }

  /** A complete sequence, its literals and its match copied, is one step. */
  lemma {:induction false} CopiedStep(j: Job, g: Goal, a: seq<byte>, ip: nat, op: nat,
                   offset: nat, length: nat, b: seq<byte>, op2: nat)
    requires j.Valid() && |a| == |b| == j.dst.Length && op <= op2 <= j.oend
    requires AtMatch(j, g, a, ip, op, offset, length) && Copied(j, a, op, b, op2, offset, length)
    ensures !j.partial ==> WholeGood(j, g, b, Next(ip, op2))
    ensures j.partial ==> PartGood(j, g, b, Next(ip, op2))
    ensures j.partial && op2 == j.oend ==> PartGood(j, g, b, Done(op2))
  {
    if j.partial {
      ExtendsPart(j.Window(a, op), offset, op2 - op, length, j.Room());
    }
  }

  /** What a copy that is cut short has written. */
  lemma ExtendsPart(w: seq<byte>, offset: nat, k: nat, n: nat, room: nat)
    requires offset <= |w| && k == Min(n, room - |w|) && |w| <= room
    ensures Cut(Extend(w, offset, n), room) == Extend(w, offset, k)
  {
    ExtendMore(w, offset, k, n);
  }

  /** The whole match has been copied. */
  lemma {:induction false} MatchCopied(j: Job, g: Goal, a: seq<byte>, ip: nat, op: nat,
                    offset: nat, length: nat, b: seq<byte>)
    requires j.Valid() && |a| == |b| == j.dst.Length && op + length <= j.oend
    requires AtMatch(j, g, a, ip, op, offset, length)
    requires offset <= |j.Window(a, op)|
    requires j.Window(b, op + length) == Extend(j.Window(a, op), offset, length)
    ensures Good(j, g, b, Next(ip, op + length))
  {
    CopiedStep(j, g, a, ip, op, offset, length, b, op + length);
  }

  lemma OffsetRefused(j: Job, g: Goal, a: seq<byte>, ip: nat, op: nat, offset: nat, length: nat, b: seq<byte>)
    requires j.Valid() && |a| == |b| == j.dst.Length
    requires AtMatch(j, g, a, ip, op, offset, length)
    requires offset > |j.Window(a, op)|
    ensures Good(j, g, b, Fail(ip))
  {
  }

  /** safe_match_copy */
  method MatchPart(j: Job, ip: nat, op: nat, offset: nat, length: nat,
                   ghost g: Goal)
    returns (out: Outcome)
    requires j.Valid() && AtMatch(j, g, j.dst[..], ip, op, offset, length)
    modifies j.dst
    ensures Kept(old(j.dst[..]), j.dst[..], op, j.oend)
    ensures Good(j, g, j.dst[..], out) && !out.ToLiterals? && !out.ToMatch?
  {
    ghost var a := j.dst[..];
    var c := CopyMatch(j, op, offset, length);
    match c {
      case Refused =>
        out := Fail(ip);
      case Go(op2) =>
        out := Next(ip, op2);
        CopiedStep(j, g, a, ip, op, offset, length, j.dst[..], op2);
      case Stop(op2) =>
        out := Done(op2);
        CopiedStep(j, g, a, ip, op, offset, length, j.dst[..], op2);
    }
  }

  /** The match length can be read. */
  lemma {:induction false} LengthRead(j: Job, g: Goal, a: seq<byte>, token: byte, lit: nat, ip0: nat, op: nat, offset: nat,
                                      ip: nat, length: nat)
    requires j.Valid() && |a| == j.dst.Length && AtOffset(j, g, a, token, lit, ip0, op, offset)
    requires ReadLength(j.src, ip0 + 2, token % 16) == Length(length, ip)
    requires token % 16 == ML_MASK ==> ip + LASTLITERALS - 1 <= |j.src|
    ensures AtMatch(j, g, a, ip, op, offset, length + MINMATCH)
  {
    if j.partial {
      OneMatch(j.src, token % 16, ip0, j.Window(a, op), j.Room(), offset, length + MINMATCH, ip);
    }
  }

  /** It cannot, or not far enough from the end. */
  lemma {:induction false} LengthRefused(j: Job, g: Goal, a: seq<byte>, token: byte, lit: nat, ip0: nat, op: nat, offset: nat)
    requires j.Valid() && |a| == j.dst.Length && AtOffset(j, g, a, token, lit, ip0, op, offset)
    requires token % 16 == ML_MASK
    requires var r := ReadLength(j.src, ip0 + 2, token % 16); r.NoLength? || r.next + LASTLITERALS - 1 > |j.src|
    ensures if j.partial then g.p == Reject else j.Rejects(g.q, g.full)
  {
  }

  /** The match length; both loops read it in the same way. */
  method MatchLength(j: Job, token: byte, ghost lit: nat, ip0: nat, op: nat, offset: nat,
                     ghost g: Goal)
    returns (ok: bool, ip: nat, length: nat)
    requires j.Valid() && AtOffset(j, g, j.dst[..], token, lit, ip0, op, offset)
    ensures !ok ==> if j.partial then g.p == Reject else j.Rejects(g.q, g.full)
    ensures ok ==> AtMatch(j, g, j.dst[..], ip, op, offset, length)
    ensures ok && token % 16 != ML_MASK ==> ip == ip0 + 2 && length == token % 16 + MINMATCH
  {
    ok, ip, length := true, ip0 + 2, token % 16;
    if length == ML_MASK {
      var addl;
      ok, addl, ip := ReadVariableLength(j.src, ip, |j.src| - LASTLITERALS + 1, false);
      if !ok {
        LengthRefused(j, g, j.dst[..], token, lit, ip0, op, offset);
        return;
      }
      length := length + addl;
    }
    LengthRead(j, g, j.dst[..], token, lit, ip0, op, offset, ip, length);
    length := length + MINMATCH;
  }

  /** _copy_match */
  method OffsetPart(j: Job, token: byte, ghost lit: nat, ip0: nat, op: nat, offset: nat,
                    ghost g: Goal)
    returns (out: Outcome)
    requires j.Valid() && AtOffset(j, g, j.dst[..], token, lit, ip0, op, offset)
    modifies j.dst
    ensures Kept(old(j.dst[..]), j.dst[..], op, j.oend)
    ensures Good(j, g, j.dst[..], out) && !out.ToLiterals? && !out.ToMatch?
  {
    var ok, ip, length := MatchLength(j, token, lit, ip0, op, offset, g);
    if !ok {
      return Fail(ip);
    }
    out := MatchPart(j, ip, op, offset, length, g);
  }

  /** Stopping right behind literals is correct. */
  lemma {:induction false} StoppedInLiterals(j: Job, g: Goal, a: seq<byte>, b: seq<byte>,
                          token: byte, ip: nat, op: nat, length: nat, op2: nat)
    requires j.Valid() && |a| == |b| == j.dst.Length
    requires AtLiterals(j, g, a, token, ip, op, length)
    requires op <= op2 <= j.oend && Ended(j, a, ip, op, length, b, op2)
    ensures Good(j, g, b, Done(op2))
  {
  }

  /** Literals that may neither end the block nor be followed by more. */
  lemma WrongLiterals(j: Job, g: Goal, a: seq<byte>, token: byte, ip: nat, op: nat, length: nat)
    requires j.Valid() && |a| == j.dst.Length && !j.partial
    requires AtLiterals(j, g, a, token, ip, op, length)
    requires ip + length != |j.src| || op + length > j.oend
    requires op + length + MFLIMIT > j.oend || ip + length + 8 > |j.src|
    ensures j.Rejects(g.q, g.full)
  {
  }

  /** safe_literal_copy */
  method LiteralPart(j: Job, token: byte, ip: nat, op: nat, length: nat,
                     ghost g: Goal)
    returns (out: Outcome)
    requires j.Valid() && AtLiterals(j, g, j.dst[..], token, ip, op, length)
    modifies j.dst
    ensures Kept(old(j.dst[..]), j.dst[..], op, j.oend)
    ensures Good(j, g, j.dst[..], out) && !out.ToLiterals? && !out.ToMatch?
  {
    ghost var a := j.dst[..];
    var c := CopyLiterals(j, ip, op, length);
    ghost var b := j.dst[..];
    match c {
      case Wrong(ip2) =>
        out := Fail(ip2);
        WrongLiterals(j, g, a, token, ip, op, length);
      case End(op2) =>
        out := Done(op2);
        StoppedInLiterals(j, g, a, b, token, ip, op, length, op2);
      case More(ip2, op2, offset) =>
        LiteralsCopied(j, g, a, token, ip, op, length, b, ip2 - 2, op2, offset);
        out := OffsetPart(j, token, ip, ip2 - 2, op2, offset, g);
        KeptTwice(a, b, j.dst[..], op, j.oend, op2, j.oend);
    }
  }

  /** A match of at most 18 bytes that does not overlap itself within 8: 18 bytes
      are copied whatever its length. */
  method ShortMatch(j: Job, op: nat, offset: nat, length: nat)
    requires j.Valid() && j.start <= op && op + 18 <= j.oend
    requires 8 <= offset <= op - j.Low() && length <= 18
    modifies j.dst
    ensures Kept(old(j.dst[..]), j.dst[..], op, j.oend)
    ensures j.Window(j.dst[..], op + length) == Extend(j.Window(old(j.dst[..]), op), offset, length)
  {
    ghost var a := j.dst[..];
    ghost var r := Ideal(a, op, offset);
    var m := op - offset;
    IdealRepeats(a, op, offset, 1, offset, op);
    Copy18(j.dst, op, m, r);
    KeptWider(a, j.dst[..], op, op + 18, op, j.oend);
    IdealWindow(j, a, j.dst[..], op, offset, length, op + 18);
  }

  lemma {:induction false} IdealWindow(j: Job, a: seq<byte>, b: seq<byte>, op: nat, offset: nat, length: nat, x: nat)
    requires j.Valid() && j.start <= op && op + length <= Min(x, j.oend) && |a| == |b| == j.dst.Length
    requires offset <= op - j.Low() && Agrees(b, Ideal(a, op, offset), x)
    ensures j.Window(b, op + length) == Extend(j.Window(a, op), offset, length)
  {
    AgreesLess(b, Ideal(a, op, offset), x, op + length);
    IdealPrefix(a, b, op, offset, length);
    WindowExtend(j, a, b, op, offset, length);
  }

  method Copy18(dst: array<byte>, op: nat, m: nat, ghost r: seq<byte>)
    requires m + 8 <= op && op + 18 <= dst.Length
    requires Agrees(dst[..], r, op) && Repeats(r, op, op - m)
    modifies dst
    ensures Agrees(dst[..], r, op + 18)
    ensures Kept(old(dst[..]), dst[..], op, op + 18)
  {
    ghost var a := dst[..];
    CopyStride(dst, op, m, 8, r);
    ghost var b := dst[..];
    CopyStride(dst, op + 8, m + 8, 8, r);
    ghost var c := dst[..];
    KeptTwice(a, b, c, op, op + 8, op + 8, op + 16);
    CopyStride(dst, op + 16, m + 16, 2, r);
    KeptTwice(a, c, dst[..], op, op + 16, op + 16, op + 18);
  }

  // ---------------------------------------------------------------------
  // The safe loop
  // ---------------------------------------------------------------------

  /** The two-stage shortcut for short literal runs and short matches. */
  method Shortcut(j: Job, token: byte, ip0: nat, op0: nat, ghost g: Goal)
    returns (out: Outcome)
    requires j.Valid() && AtLiterals(j, g, j.dst[..], token, ip0, op0, token / 16)
    requires token / 16 != RUN_MASK && ip0 + 16 < |j.src| && op0 + 32 <= j.oend
    modifies j.dst
    ensures Kept(old(j.dst[..]), j.dst[..], op0, j.oend)
    ensures Good(j, g, j.dst[..], out) && !out.ToLiterals? && !out.ToMatch?
  {
    ghost var a := j.dst[..];
    var length: nat := token / 16;
    ShortLiterals(j, ip0, op0, length);
    ghost var a1 := j.dst[..];
    var ip, op := ip0 + length, op0 + length;
    var offset := LE16(j.src[ip], j.src[ip + 1]);
    LiteralsCopied(j, g, a, token, ip0, op0, length, a1, ip, op, offset);
    out := ShortcutOffset(j, token, ip0, ip, op, offset, g);
    KeptTwice(a, a1, j.dst[..], op0, j.oend, op, j.oend);
  }

  /** The short match itself. */
  method ShortcutMatch(j: Job, ip: nat, op: nat, offset: nat, length: nat, ghost g: Goal) returns (out: Outcome)
    requires j.Valid() && AtMatch(j, g, j.dst[..], ip, op, offset, length)
    requires op + 18 <= j.oend && 8 <= offset <= op - j.Low() && length <= 18
    modifies j.dst
    ensures Kept(old(j.dst[..]), j.dst[..], op, j.oend)
    ensures Good(j, g, j.dst[..], out) && out == Next(ip, op + length)
  {
    ghost var a := j.dst[..];
    ShortMatch(j, op, offset, length);
    out := Next(ip, op + length);
    MatchCopied(j, g, a, ip, op, offset, length, j.dst[..]);
  }

  /** The second stage of the shortcut. */
  method ShortcutOffset(j: Job, token: byte, ghost lit: nat, ip0: nat, op: nat, offset: nat, ghost g: Goal)
    returns (out: Outcome)
    requires j.Valid() && op + 18 <= j.oend && AtOffset(j, g, j.dst[..], token, lit, ip0, op, offset)
    modifies j.dst
    ensures Kept(old(j.dst[..]), j.dst[..], op, j.oend)
    ensures Good(j, g, j.dst[..], out) && !out.ToLiterals? && !out.ToMatch?
  {
    var length: nat := token % 16;
    var m := op - offset;
    if length != ML_MASK && offset >= 8 && (j.mode == WithPrefix64k || m >= j.lowPrefix) {
      LengthRead(j, g, j.dst[..], token, lit, ip0, op, offset, ip0 + 2, length);
      out := ShortcutMatch(j, ip0 + 2, op, offset, length + MINMATCH, g);
    } else {
      out := OffsetPart(j, token, lit, ip0, op, offset, g);
    }
  }

  /** The goal of the iteration at token `i`. */
  ghost predicate AtToken(j: Job, g: Goal, i: nat)
    requires j.Valid()
  {
    g.q == ParseAt(j.src, i) && |g.full| <= j.Room() && g.p == StepAt(j.src, i, g.full, j.Room())
  }

  /** The literal length can be read. */
  lemma {:induction false} TokenRead(j: Job, g: Goal, i0: nat, nibble: nat, ip: nat, length: nat)
    requires j.Valid() && i0 < |j.src| && AtToken(j, g, i0)
    requires nibble == j.src[i0] / 16 && ReadLength(j.src, i0 + 1, nibble) == Length(length, ip)
    requires nibble == RUN_MASK ==> ip + RUN_MASK <= |j.src|
    ensures ip <= |j.src| && g.q == ParseLiterals(j.src, j.src[i0] % 16, ip, length)
    ensures j.partial ==> g.p == StepLiterals(j.src, j.src[i0] % 16, ip, length, g.full, j.Room())
  {
    OneToken(j.src, i0, g.full, j.Room(), nibble, length, ip);
  }

  /** The literal length; both loops read it in the same way. */
  method LiteralLength(j: Job, i0: nat, token: byte, ghost g: Goal)
    returns (ok: bool, ip: nat, length: nat)
    requires j.Valid() && i0 < |j.src| && token == j.src[i0] && AtToken(j, g, i0)
    ensures !ok ==> if j.partial then g.p == Reject else j.Rejects(g.q, g.full)
    ensures ok ==> ip <= |j.src| && g.q == ParseLiterals(j.src, token % 16, ip, length)
    ensures ok && j.partial ==> g.p == StepLiterals(j.src, token % 16, ip, length, g.full, j.Room())
    ensures ok && token / 16 != RUN_MASK ==> ip == i0 + 1 && length == token / 16
  {
    ok, ip, length := true, i0 + 1, token / 16;
    if length == RUN_MASK {
      var addl;
      ok, addl, ip := ReadVariableLength(j.src, ip, |j.src| - RUN_MASK, true);
      if !ok {
        return;
      }
      length := length + addl;
    }
    TokenRead(j, g, i0, token / 16, ip, length);
  }

  /** One iteration of the safe loop. */
  method SafeStep(j: Job, i0: nat, op: nat, ghost g: Goal) returns (out: Outcome)
    requires j.Valid() && i0 < |j.src| && AtToken(j, g, i0)
    requires j.start <= op <= j.oend && j.Window(j.dst[..], op) == g.full
    modifies j.dst
    ensures Kept(old(j.dst[..]), j.dst[..], op, j.oend)
    ensures Good(j, g, j.dst[..], out) && !out.ToLiterals? && !out.ToMatch?
  {
    var token := j.src[i0];
    var shortiend, shortoend := |j.src| - 14 - 2, j.oend - 14 - 18;
    if token / 16 != RUN_MASK && i0 + 1 < shortiend && op <= shortoend {
      out := Shortcut(j, token, i0 + 1, op, g);
      return;
    }
    var ok, ip, length := LiteralLength(j, i0, token, g);
    if !ok {
      return Fail(ip);
    }
    out := LiteralPart(j, token, ip, op, length, g);
  }

  // ---------------------------------------------------------------------
  // The fast loop
  // ---------------------------------------------------------------------

  /** The literals in the fast loop; false if they are too close to an end. */
  method FastLiterals(j: Job, token: byte, ip: nat, op: nat, length: nat) returns (go: bool)
    requires j.Valid() && ip <= |j.src| && j.start <= op && op + FASTLOOP_SAFE_DISTANCE <= j.oend
    requires token / 16 != RUN_MASK ==> length < RUN_MASK
    modifies j.dst
    ensures Kept(old(j.dst[..]), j.dst[..], op, j.oend)
    ensures !go ==> j.dst[..] == old(j.dst[..])
    ensures go ==>
      && op + length + 32 <= j.oend && ip + length + 2 < |j.src|
      && j.Window(j.dst[..], op + length) == j.Window(old(j.dst[..]), op) + j.src[ip..ip + length]
  {
    go := true;
    if token / 16 == RUN_MASK {
      if op + length > j.oend - 32 || ip + length > |j.src| - 32 {
        return false;
      }
      WildLiterals32(j, ip, op, length);
    } else if ip <= |j.src| - (16 + 1) {
      ShortLiterals(j, ip, op, length);
    } else {
      go := false;
    }
  }

  /** Copying a match in the fast loop, at least 64 bytes from the end. */
  method FastMatch(j: Job, ip: nat, op: nat, offset: nat, length: nat,
                   ghost g: Goal)
    returns (out: Outcome)
    requires j.Valid() && AtMatch(j, g, j.dst[..], ip, op, offset, length)
    requires op + length + FASTLOOP_SAFE_DISTANCE < j.oend
    modifies j.dst
    ensures Kept(old(j.dst[..]), j.dst[..], op, j.oend)
    ensures Good(j, g, j.dst[..], out)
    ensures out.Fail? || (out.Next? && out.op == op + length)
  {
    ghost var a := j.dst[..];
    var m := op - offset;
    var checkOffset := |j.dict| < 65536;
    if checkOffset && m + |j.dict| < j.lowPrefix {
      OffsetRefused(j, g, a, ip, op, offset, length, a);
      return Fail(ip);
    }
    if j.mode == UsingExtDict && m < j.lowPrefix {
      // op + length is too far from the end for the last-literals check to fail here
      var op2 := ExtDictMatch(j, op, offset, length);
      KeptWider(a, j.dst[..], op, op2, op, j.oend);
    } else {
      FarMatch(j, op, offset, length);
    }
    out := Next(ip, op + length);
    MatchCopied(j, g, a, ip, op, offset, length, j.dst[..]);
  }

  method FarMatch(j: Job, op: nat, offset: nat, length: nat)
    requires j.Valid() && j.start <= op && op + length + FASTLOOP_SAFE_DISTANCE < j.oend
    requires offset <= op - j.Low() && length >= MINMATCH
    modifies j.dst
    ensures Kept(old(j.dst[..]), j.dst[..], op, j.oend)
    ensures j.Window(j.dst[..], op + length) == Extend(j.Window(old(j.dst[..]), op), offset, length)
  {
    ghost var a := j.dst[..];
    ghost var r := Ideal(a, op, offset);
    var m, cpy := op - offset, op + length;
    if offset < 16 {
      MemcpyUsingOffset(j.dst, op, m, cpy, offset, r);
      FarKept(a, j.dst[..], r, op, cpy, cpy + MFLIMIT, j.oend);
    } else {
      IdealRepeats(a, op, offset, 1, offset, op);
      WildCopy32(j.dst, op, m, cpy, r);
      ghost var hi := WildEnd(op, cpy, 32);
      FarKept(a, j.dst[..], r, op, hi, hi, j.oend);
      AgreesLess(j.dst[..], r, hi, cpy);
    }
    IdealWindow(j, a, j.dst[..], op, offset, length, cpy);
  }

  lemma FarKept(a: seq<byte>, b: seq<byte>, r: seq<byte>, op: nat, x: nat, hi: nat, oend: nat)
    requires op <= x <= hi <= oend <= |a| && Agrees(a, r, op) && Agrees(b, r, x) && a[hi..] == b[hi..]
    ensures Kept(a, b, op, oend)
  {
    AgreesLess(b, r, x, op);
    assert a[oend..] == a[hi..][oend - hi..];
    assert b[oend..] == b[hi..][oend - hi..];
  }

  /** One iteration of the fast loop. */
  method FastStep(j: Job, i0: nat, op0: nat, ghost g: Goal) returns (out: Outcome)
    requires j.Valid() && i0 < |j.src| && AtToken(j, g, i0)
    requires j.start <= op0 && op0 + FASTLOOP_SAFE_DISTANCE <= j.oend && j.Window(j.dst[..], op0) == g.full
    modifies j.dst
    ensures Kept(old(j.dst[..]), j.dst[..], op0, j.oend)
    ensures Good(j, g, j.dst[..], out) && !out.Done?
    ensures out.Next? ==> out.op + FASTLOOP_SAFE_DISTANCE <= j.oend
    ensures out.ToLiterals? ==> AtLiterals(j, g, j.dst[..], out.token, out.ip, out.op, out.length)
    ensures out.ToMatch? ==> AtMatch(j, g, j.dst[..], out.ip, out.op, out.offset, out.length)
  {
    var token := j.src[i0];
    var ok, ip, length := LiteralLength(j, i0, token, g);
    if !ok {
      return Fail(ip);
    }
    out := FastSequence(j, token, ip, op0, length, g);
  }

  /** Its literals and its match. */
  method FastSequence(j: Job, token: byte, ip: nat, op0: nat, length: nat, ghost g: Goal)
    returns (out: Outcome)
    requires j.Valid() && j.start <= op0 && op0 + FASTLOOP_SAFE_DISTANCE <= j.oend
    requires AtLiterals(j, g, j.dst[..], token, ip, op0, length) && (token / 16 != RUN_MASK ==> length < RUN_MASK)
    modifies j.dst
    ensures Kept(old(j.dst[..]), j.dst[..], op0, j.oend)
    ensures Good(j, g, j.dst[..], out) && !out.Done?
    ensures out.Next? ==> out.op + FASTLOOP_SAFE_DISTANCE <= j.oend
    ensures out.ToLiterals? ==> AtLiterals(j, g, j.dst[..], out.token, out.ip, out.op, out.length)
    ensures out.ToMatch? ==> AtMatch(j, g, j.dst[..], out.ip, out.op, out.offset, out.length)
  {
    ghost var a := j.dst[..];
    var go := FastLiterals(j, token, ip, op0, length);
    if !go {
      return ToLiterals(token, ip, op0, length);
    }
    ghost var a1 := j.dst[..];
    var ip2, op := ip + length, op0 + length;
    var offset := LE16(j.src[ip2], j.src[ip2 + 1]);
    LiteralsCopied(j, g, a, token, ip, op0, length, a1, ip2, op, offset);
    out := FastOffset(j, token, ip, ip2, op, offset, g);
    KeptTwice(a, a1, j.dst[..], op0, j.oend, op, j.oend);
  }

  /** The second half of the iteration, from the offset on. */
  method FastOffset(j: Job, token: byte, ghost lit: nat, ip0: nat, op: nat, offset: nat, ghost g: Goal)
    returns (out: Outcome)
    requires j.Valid() && op + 32 <= j.oend && AtOffset(j, g, j.dst[..], token, lit, ip0, op, offset)
    modifies j.dst
    ensures Kept(old(j.dst[..]), j.dst[..], op, j.oend)
    ensures Good(j, g, j.dst[..], out) && !out.Done? && !out.ToLiterals?
    ensures out.Next? ==> out.op + FASTLOOP_SAFE_DISTANCE <= j.oend
    ensures out.ToMatch? ==> AtMatch(j, g, j.dst[..], out.ip, out.op, out.offset, out.length)
  {
    ghost var a := j.dst[..];
    var ok, ip, length := MatchLength(j, token, lit, ip0, op, offset, g);
    if !ok {
      return Fail(ip);
    }
    if op + length >= j.oend - FASTLOOP_SAFE_DISTANCE {
      return ToMatch(ip, op, offset, length);
    }
    if token % 16 != ML_MASK && (j.mode == WithPrefix64k || op - offset >= j.lowPrefix) && offset >= 8 {
      ShortMatch(j, op, offset, length);
      out := Next(ip, op + length);
      MatchCopied(j, g, a, ip, op, offset, length, j.dst[..]);
    } else {
      out := FastMatch(j, ip, op, offset, length, g);
    }
  }
}
