/** LZ4_decompress_unsafe_generic: the decoder behind LZ4_decompress_fast*, which
    knows the decoded size but not where the block ends. */
module UnsafeDecoder {
  import opened Bytes
  import opened BlockFormat
  import opened WideCopy
  import opened DecoderState
  import opened MatchStage
  import opened Decompress

  /** Every offset from token `i` on is at least 1. */
  ghost predicate OffsetsFrom(s: seq<byte>, i: nat)
    decreases |s| - i
  {
    var q := ParseAt(s, i);
    q.Match? ==> q.off >= 1 && OffsetsFrom(s, q.next)
  }

  lemma {:induction false} WellFormedOffsets(s: seq<byte>, i: nat, w: seq<byte>, end: nat)
    requires WellFormedFrom(s, i, w, end)
    ensures OffsetsFrom(s, i)
    decreases |s| - i
  {
    var q := ParseAt(s, i);
    if q.Match? {
      WellFormedOffsets(s, q.next, StepWindow(s, q, w), end);
    }
  }

  /** read_long_length_no_check */
  method ReadLongLength(src: seq<byte>, ip0: nat, ghost n: nat) returns (l: nat, ip: nat)
    requires n <= |src| && ReadRun(src[..n], ip0).Length?
    ensures ReadRun(src[..n], ip0) == Length(l, ip)
  {
    ip, l := ip0, 0;
    var b := 255;
    while b == 255
      invariant b == 255 ==> ReadRun(src[..n], ip).Length?
      invariant b == 255 ==>
                  var r := ReadRun(src[..n], ip);
                  ReadRun(src[..n], ip0) == Length(l + r.len, r.next)
      invariant b != 255 ==> ReadRun(src[..n], ip0) == Length(l, ip)
      decreases b == 255, n - ip
    {
      b := src[ip];
      ip := ip + 1;
      l := l + b;
    }
  }

  /** The slow match copy, dictionary part included. */
  method SlowMatch(j: Job, op0: nat, offset: nat, ml0: nat) returns (op: nat)
    requires j.Valid() && j.mode == UsingExtDict && j.start <= op0 && op0 + ml0 <= j.oend
    requires 1 <= offset <= |j.Window(j.dst[..], op0)|
    modifies j.dst
    ensures op == op0 + ml0 && Kept(old(j.dst[..]), j.dst[..], op0, op)
    ensures j.Window(j.dst[..], op) == Extend(j.Window(old(j.dst[..]), op0), offset, ml0)
  {
    if offset <= op0 - j.lowPrefix {
      op := SlowCopy(j, op0, op0 - offset, offset, ml0);
    } else {
      op := SplitSlowMatch(j, op0, offset, ml0);
    }
  }

  method SplitSlowMatch(j: Job, op0: nat, offset: nat, ml: nat) returns (op: nat)
    requires j.Valid() && j.mode == UsingExtDict && j.start <= op0 && op0 + ml <= j.oend
    requires op0 - j.lowPrefix < offset <= |j.Window(j.dst[..], op0)|
    modifies j.dst
    ensures op == op0 + ml && Kept(old(j.dst[..]), j.dst[..], op0, op)
    ensures j.Window(j.dst[..], op) == Extend(j.Window(old(j.dst[..]), op0), offset, ml)
  {
    ghost var w := j.Window(j.dst[..], op0);
    ghost var a := j.dst[..];
    var extml := offset - (op0 - j.lowPrefix);
    if extml > ml {
      op := DictMatch(j, op0, offset, ml);
    } else {
      var rest := ml - extml;
      op := DictMatch(j, op0, offset, extml);
      ghost var b, mid := j.dst[..], op;
      op := SlowCopy(j, op, j.lowPrefix, offset, rest);
      KeptTwice(a, b, j.dst[..], op0, mid, mid, op);
      ExtendTwice(w, offset, extml, rest);
    }
  }

  /** `for (u=0; u<ml; u++) op[u] = match[u]` */
  method SlowCopy(j: Job, op0: nat, m: nat, offset: nat, ml: nat) returns (op: nat)
    requires j.Valid() && j.mode == UsingExtDict && j.start <= op0 && op0 + ml <= j.oend
    requires 1 <= offset <= op0 - j.lowPrefix && m == op0 - offset
    modifies j.dst
    ensures op == op0 + ml && Kept(old(j.dst[..]), j.dst[..], op0, op)
    ensures j.Window(j.dst[..], op) == Extend(j.Window(old(j.dst[..]), op0), offset, ml)
  {
    ghost var a := j.dst[..];
    op := op0 + ml;
    CopyBytes(j.dst, op0, m, op);
    WindowExtend(j, a, j.dst[..], op0, offset, ml);
  }

  /** A length whose token nibble is `nibble`. */
  method ReadLengthNoCheck(src: seq<byte>, ip0: nat, nibble: nat, ghost n: nat) returns (l: nat, ip: nat)
    requires n <= |src| && nibble < 16 && ReadLength(src[..n], ip0, nibble).Length?
    ensures ReadLength(src[..n], ip0, nibble) == Length(l, ip)
  {
    l, ip := nibble, ip0;
    if l == 15 {
      var more;
      more, ip := ReadLongLength(src, ip, n);
      l := l + more;
    }
  }

  lemma ParseParts(s: seq<byte>, i: nat)
    requires ParseAt(s, i) != Malformed
    ensures var q := ParseAt(s, i);
            && i < |s| && ReadLength(s, i + 1, s[i] / 16) == Length(q.ll, q.lit)
            && (q.Match? ==>
                  && ReadLength(s, q.lit + q.ll + 2, s[i] % 16) == Length(q.ml - MINMATCH, q.next)
                  && q.off == LE16(s[q.lit + q.ll], s[q.lit + q.ll + 1]))
  {
  }

  /** Token and literals of one sequence. */
  method UnsafeLiterals(j: Job, i0: nat, op0: nat, ghost n: nat, ghost q: Sequence) returns (ip: nat, op: nat)
    requires j.Valid() && j.start <= op0 && n <= |j.src| && i0 < n
    requires q != Malformed && ReadLength(j.src[..n], i0 + 1, j.src[i0] / 16) == Length(q.ll, q.lit)
    requires q.lit + q.ll <= n && op0 + q.ll <= j.oend
    modifies j.dst
    ensures ip == q.lit + q.ll && op == op0 + q.ll
    ensures Kept(old(j.dst[..]), j.dst[..], op0, j.oend)
    ensures j.Window(j.dst[..], op) == j.Window(old(j.dst[..]), op0) + j.src[q.lit..ip]
  {
    ghost var a := j.dst[..];
    var token := j.src[i0];
    var ll;
    ll, ip := ReadLengthNoCheck(j.src, i0 + 1, token / 16, n);
    if j.oend - op0 < ll {
      assert false;
    }
    CopyIn(j.dst, op0, j.src, ip, ll);
    LiteralsIn(j, a, j.dst[..], op0, j.src[ip..ip + ll]);
    op, ip := op0 + ll, ip + ll;
  }

  lemma LiteralsIn(j: Job, a: seq<byte>, b: seq<byte>, op: nat, x: seq<byte>)
    requires j.Valid() && |a| == j.dst.Length && j.start <= op && op + |x| <= j.oend && b == Blit(a, op, x)
    ensures Kept(a, b, op, j.oend) && j.Window(b, op + |x|) == j.Window(a, op) + x
  {
    BlitPrefix(a, op, x);
    WindowAppend(j, a, b, op, x);
    KeptWider(a, b, op, op + |x|, op, j.oend);
  }

  /** Offset and match of one sequence. */
  method UnsafeMatch(j: Job, token: byte, ip0: nat, op0: nat, ghost n: nat, ghost q: Sequence) returns (ip: nat, op: nat)
    requires j.Valid() && j.mode == UsingExtDict && j.start <= op0 && n <= |j.src|
    requires q.Match? && ip0 == q.lit + q.ll && ip0 + 2 <= n && q.ml >= MINMATCH
    requires ReadLength(j.src[..n], ip0 + 2, token % 16) == Length(q.ml - MINMATCH, q.next)
    requires q.off == LE16(j.src[ip0], j.src[ip0 + 1]) && op0 + q.ml <= j.oend
    requires 1 <= q.off <= |j.Window(j.dst[..], op0)|
    modifies j.dst
    ensures ip == q.next && op == op0 + q.ml
    ensures Kept(old(j.dst[..]), j.dst[..], op0, j.oend)
    ensures j.Window(j.dst[..], op) == Extend(j.Window(old(j.dst[..]), op0), q.off, q.ml)
  {
    ghost var a := j.dst[..];
    var offset := LE16(j.src[ip0], j.src[ip0 + 1]);
    var ml;
    ml, ip := ReadLengthNoCheck(j.src, ip0 + 2, token % 16, n);
    ml := ml + MINMATCH;
    if j.oend - op0 < ml || offset > op0 - j.lowPrefix + |j.dict| {
      assert false;
    }
    op := SlowMatch(j, op0, offset, ml);
    KeptWider(a, j.dst[..], op0, op, op0, j.oend);
  }

  /** The run so far: `s` is the block, `d` what it decodes to on top of `h`, and
      `w` what has been decoded up to token `ip`. */
  ghost predicate Ahead(s: seq<byte>, h: seq<byte>, d: seq<byte>, ip: nat, w: seq<byte>) {
    && ip < |s| && DecodeFrom(s, ip, w) == Some(d) && OffsetsFrom(s, ip)
    && (WellFormed(s, h, |d|) <==> WellFormedFrom(s, ip, w, |d|))
  }

  /** What is known of the sequence at token `ip`. */
  lemma AheadHere(s: seq<byte>, h: seq<byte>, d: seq<byte>, ip: nat, w: seq<byte>)
    requires Ahead(s, h, d, ip, w)
    ensures var q := ParseAt(s, ip);
            && q != Malformed
            && (q.Last? ==> w + s[q.lit..] == d && q.lit + q.ll == |s| && WellFormed(s, h, |d|))
            && (q.Match? ==> 1 <= q.off <= |w| + q.ll && |w| + q.ll + q.ml <= |d|)
            && (q.Match? && |w| + q.ll + MFLIMIT > |d| ==> !WellFormed(s, h, |d|))
            && (q.Match? && |w| + q.ll + q.ml + LASTLITERALS > |d| ==> !WellFormed(s, h, |d|))
  {
    var q := ParseAt(s, ip);
    OneSequence(s, ip, w, |d|);
    if q.Last? {
      assert s[q.lit..q.lit + q.ll] == s[q.lit..];
    }
  }

  lemma AheadNext(s: seq<byte>, h: seq<byte>, d: seq<byte>, ip: nat, w: seq<byte>)
    requires Ahead(s, h, d, ip, w) && ParseAt(s, ip).Match?
    requires var q := ParseAt(s, ip);
             |w| + q.ll + MFLIMIT <= |d| && |w| + q.ll + q.ml + LASTLITERALS <= |d| && q.off <= |w| + q.ll
    ensures Ahead(s, h, d, ParseAt(s, ip).next, StepWindow(s, ParseAt(s, ip), w))
  {
    OneSequence(s, ip, w, |d|);
  }

  /** What one sequence must come to: the run goes on, ends the block, or the
      block breaks a restriction. */
  ghost predicate UnsafeGood(j: Job, s: seq<byte>, h: seq<byte>, d: seq<byte>, i0: nat, b: seq<byte>, out: Outcome)
    requires j.Valid() && |b| == j.dst.Length
  {
    match out
    case Next(ip, op) => i0 < ip && j.start <= op <= j.oend && Ahead(s, h, d, ip, j.Window(b, op))
    case Done(ip) => ip == |s| && j.Window(b, j.oend) == d && WellFormed(s, h, |d|)
    case Fail(_) => !WellFormed(s, h, |d|)
    case _ => false
  }

  lemma UnsafeLast(j: Job, s: seq<byte>, h: seq<byte>, d: seq<byte>, i0: nat, w: seq<byte>, b: seq<byte>, ip: nat, op: nat)
    requires j.Valid() && |b| == j.dst.Length && j.start <= op <= j.oend && |d| == j.Room()
    requires Ahead(s, h, d, i0, w) && op + MFLIMIT > j.oend
    requires var q := ParseAt(s, i0);
             q != Malformed && ip == q.lit + q.ll && j.Window(b, op) == w + s[q.lit..ip]
    ensures UnsafeGood(j, s, h, d, i0, b, if op == j.oend then Done(ip) else Fail(ip))
    ensures op == j.oend || ParseAt(s, i0).Match?
  {
    AheadHere(s, h, d, i0, w);
  }

  lemma UnsafeNext(j: Job, s: seq<byte>, h: seq<byte>, d: seq<byte>, i0: nat, w: seq<byte>, b: seq<byte>, op: nat)
    requires j.Valid() && |b| == j.dst.Length && j.start <= op <= j.oend && |d| == j.Room()
    requires Ahead(s, h, d, i0, w) && ParseAt(s, i0).Match?
    requires var q := ParseAt(s, i0);
             && q.off <= |w| + q.ll && |w| + q.ll + MFLIMIT <= |d|
             && j.Window(b, op) == StepWindow(s, q, w)
    ensures var ip := ParseAt(s, i0).next;
            UnsafeGood(j, s, h, d, i0, b, if j.oend - op < LASTLITERALS then Fail(ip) else Next(ip, op))
  {
    AheadHere(s, h, d, i0, w);
    if j.oend - op >= LASTLITERALS {
      AheadNext(s, h, d, i0, w);
    }
  }

  lemma PartOfPrefix(s: seq<byte>, n: nat, a: nat, b: nat)
    requires a <= b <= n <= |s|
    ensures s[..n][a..b] == s[a..b]
  {
  }

  method UnsafeStep(j: Job, i0: nat, op0: nat, ghost n: nat, ghost h: seq<byte>, ghost d: seq<byte>) returns (out: Outcome)
    requires j.Valid() && j.mode == UsingExtDict && j.start <= op0 <= j.oend && n <= |j.src|
    requires Ahead(j.src[..n], h, d, i0, j.Window(j.dst[..], op0)) && |d| == j.Room()
    modifies j.dst
    ensures Kept(old(j.dst[..]), j.dst[..], op0, j.oend)
    ensures UnsafeGood(j, j.src[..n], h, d, i0, j.dst[..], out)
  {
    ghost var s, w, a := j.src[..n], j.Window(j.dst[..], op0), j.dst[..];
    ghost var q := ParseAt(s, i0);
    AheadHere(s, h, d, i0, w);
    ParseParts(s, i0);
    var token := j.src[i0];
    var ip, op := UnsafeLiterals(j, i0, op0, n, q);
    PartOfPrefix(j.src, n, q.lit, ip);
    if j.oend - op < MFLIMIT {
      UnsafeLast(j, s, h, d, i0, w, j.dst[..], ip, op);
      return if op == j.oend then Done(ip) else Fail(ip);
    }
    ghost var b, op1 := j.dst[..], op;
    ip, op := UnsafeMatch(j, token, ip, op, n, q);
    KeptTwice(a, b, j.dst[..], op0, j.oend, op1, j.oend);
    UnsafeNext(j, s, h, d, i0, w, j.dst[..], op);
    out := if j.oend - op < LASTLITERALS then Fail(ip) else Next(ip, op);
  }

  method UnsafeLoop(j: Job, ghost n: nat, ghost h: seq<byte>, ghost d: seq<byte>) returns (r: int)
    requires j.Valid() && j.mode == UsingExtDict && n <= |j.src| && |d| == j.Room()
    requires Ahead(j.src[..n], h, d, 0, j.Window(j.dst[..], j.start))
    modifies j.dst
    ensures Kept(old(j.dst[..]), j.dst[..], j.start, j.oend)
    ensures r == (if WellFormed(j.src[..n], h, |d|) then n else -1)
    ensures r >= 0 ==> j.Window(j.dst[..], j.oend) == d
  {
    ghost var a := j.dst[..];
    var ip: nat, op: nat := 0, j.start;
    while true
      invariant j.start <= op <= j.oend && Ahead(j.src[..n], h, d, ip, j.Window(j.dst[..], op))
      invariant Kept(a, j.dst[..], j.start, j.oend)
      decreases n - ip
    {
      ghost var b := j.dst[..];
      var out := UnsafeStep(j, ip, op, n, h, d);
      KeptTwice(a, b, j.dst[..], j.start, j.oend, op, j.oend);
      match out {
        case Next(ip2, op2) =>
          ip, op := ip2, op2;
        case Done(ip2) =>
          return ip2;
        case Fail(_) =>
          return -1;
      }
    }
  }

  /** LZ4_decompress_unsafe_generic, on an input that starts with a correct block
      `src[..n]`: the number of bytes read is the size of the block, and -1 is
      returned exactly when the block breaks the end-of-block restrictions. */
  method DecompressUnsafe(src: seq<byte>, dst: array<byte>, start: nat, decompressedSize: nat,
                          prefixSize: nat, dict: seq<byte>, ghost n: nat)
    returns (r: int)
    requires start + decompressedSize <= dst.Length && prefixSize <= start && n <= |src|
    requires var d := Decode(src[..n], dict + dst[start - prefixSize..start]);
             d.Some? && |d.value| == |dict| + prefixSize + decompressedSize
    requires OffsetsFrom(src[..n], 0)
    modifies dst
    ensures Kept(old(dst[..]), dst[..], start, start + decompressedSize)
    ensures r == (if WellFormedBlock(src[..n], dict + old(dst[start - prefixSize..start])) then n else -1)
    ensures r >= 0 ==>
      var h := dict + old(dst[start - prefixSize..start]);
      Decode(src[..n], h) == Some(h + dst[start..start + decompressedSize])
  {
    var j := Job(src, dst, start, start + decompressedSize, false, UsingExtDict, start - prefixSize, dict);
    ghost var a, h := dst[..], j.Window(dst[..], start);
    r := UnsafeLoop(j, n, h, Decode(src[..n], h).value);
    WindowPrefix(j, a, dst[..], start);
    WindowSplit(j, dst[..], j.oend);
  }
}
