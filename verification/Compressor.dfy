/** LZ4_compress_generic_validated: the main loop, stage by stage. */
module Compressor {
  import opened Bytes
  import opened BlockFormat
  import opened BlockEncoding
  import opened DecoderState
  import opened Stretches
  import opened CompressorState
  import opened MatchFinder
  import opened SequenceWriter

  /** How a stage ends: out of room (for good, or with a rewind to the last
      literals), or with the sequence written so far. */
  datatype Step = GiveUp | Rewind | Written(op: nat, ip: nat)

  /** What `op` bytes of output for the source up to `anchor` leave room for. */
  ghost predicate Budget(t: Task, op: int, anchor: int, q: int) {
    && 0 <= op && t.source <= anchor && q <= t.At(anchor)
    && 255 * (op - (anchor - t.source)) <= anchor - t.source
    && (if op == 0 then anchor == t.source
        else
          && q + MINMATCH <= t.At(anchor) && q + MFLIMIT <= t.At(t.Iend()) && anchor + LASTLITERALS <= t.Iend()
          && (t.directive != NotLimited ==> op + 1 + LASTLITERALS <= t.olimit)
          && (t.directive == FillOutput ==> q + 7 <= t.At(anchor) || op + 9 <= t.olimit))
  }

  /** A token stands at `token`, and behind it, up to `op`, the literals before `ip`. */
  ghost predicate Pending(t: Task, token: int, op: int, anchor: int, ip: int, q: int) {
    && Budget(t, token, anchor, q)
    && anchor <= ip && ip + MFLIMIT <= t.Iend()
    && op == token + 1 + LengthSize(ip - anchor) + (ip - anchor)
    && (t.directive != NotLimited ==> op + 2 <= t.olimit)
  }

  // ---------------------------------------------------------------------
  // The output bound
  // ---------------------------------------------------------------------

  /** A sequence of `ll` literals and a match of `4 + code` bytes keeps the ratio. */
  lemma Ratio(op: int, a: int, ll: nat, code: nat)
    requires 255 * (op - a) <= a
    ensures var op2 := op + 1 + LengthSize(ll) + ll + 2 + LengthSize(code);
            var a2 := a + ll + MINMATCH + code;
            255 * (op2 - a2) <= a2
  {
    LengthSizeIs(ll);
    LengthSizeIs(code);
    assert 255 * ((ll + 240) / 255) <= if ll < 15 then 0 else ll + 240;
    assert 255 * ((code + 240) / 255) <= if code < 15 then 0 else code + 240;
  }

  /** Output in the ratio stays below the bound. */
  lemma UnderBound(op: int, a: int, n: nat)
    requires 255 * (op - a) <= a && a <= n
    ensures op + (n - a) + 16 <= Bound(n)
  {
  }

  /** Literals, an offset and 8 more bytes fit below the bound. */
  lemma LiteralsUnderBound(op: int, a: int, ll: nat, n: nat)
    requires 255 * (op - a) <= a && a + ll + MFLIMIT <= n
    ensures op + 1 + ll + 8 + ll / 255 <= Bound(n)
    ensures op + 1 + LengthSize(ll) + ll + 8 + 2 <= Bound(n)
  {
    LengthSizeIs(ll);
    assert 255 * (op + ll / 255 - (a + ll)) <= a + ll - 254 * ll;
  }

  lemma LimitedLiterals(op: int, ll: nat, olimit: int)
    requires op + 1 + ll + (2 + 1 + LASTLITERALS) + ll / 255 <= olimit
    ensures op + 1 + LengthSize(ll) + ll + (if ll == 0 then 8 else 7) <= olimit
  {
    LengthSizeIs(ll);
  }

  lemma SourceLiterals(t: Task, text: seq<byte>, anchor: nat, ip: nat)
    requires t.Valid() && t.Reads(text) && t.source <= anchor <= ip <= t.Iend()
    ensures text[t.At(anchor)..t.At(ip)] == t.mem[anchor..anchor + (ip - anchor)]
  {
    TextOfSource(t, text, anchor, ip - anchor);
    SameSlices(text, t.At(anchor), t.mem, anchor, ip - anchor);
  }

  /** Check output buffer overflow: is there room for the literals, as wide as they
      are copied, and for what must follow them? */
  method CheckLiterals(t: Task, token: nat, anchor: nat, ip: nat, ghost q: int) returns (s: Step)
    requires t.Valid() && Budget(t, token, anchor, q) && anchor <= ip && ip + MFLIMIT <= t.Iend()
    ensures s.GiveUp? ==> t.directive == LimitedOutput && t.olimit < Bound(t.n)
    ensures s.Rewind? ==> t.directive == FillOutput
    ensures s.Written? ==> s.ip == ip && Pending(t, token, s.op, anchor, ip, q)
    ensures s.Written? ==> s.op + (if ip == anchor then 8 else 7) <= t.dst.Length
  {
    var litLength: nat := ip - anchor;
    var op := token + 1;
    LiteralsUnderBound(token, anchor - t.source, litLength, t.n);
    if t.directive == LimitedOutput && op + litLength + (2 + 1 + LASTLITERALS) + litLength / 255 > t.olimit {
      return GiveUp;
    }
    if t.directive == FillOutput
       && op + (litLength + 240) / 255 + litLength + 2 + 1 + MFLIMIT - MINMATCH > t.olimit {
      return Rewind;
    }
    if t.directive == LimitedOutput {
      LimitedLiterals(token, litLength, t.olimit);
    }
    LengthSizeIs(litLength);
    s := Written(op + (litLength + 240) / 255 + litLength, ip);
  }

  /** Encode Literals */
  method EncodeLiterals(t: Task, op0: nat, anchor: nat, ip: nat, ghost q: int) returns (s: Step)
    requires t.Valid() && Budget(t, op0, anchor, q) && anchor <= ip && ip + MFLIMIT <= t.Iend()
    modifies t.dst
    ensures s.GiveUp? ==> t.directive == LimitedOutput && t.olimit < Bound(t.n)
    ensures s.Rewind? ==> t.directive == FillOutput && t.dst[..] == old(t.dst[..])
    ensures s.Written? ==> s.ip == ip && Pending(t, op0, s.op, anchor, ip, q) && op0 <= s.op <= t.dst.Length
    ensures s.Written? ==> t.dst[..s.op] == old(t.dst[..op0]) + Opening(t.mem[anchor..anchor + (ip - anchor)])
  {
    s := CheckLiterals(t, op0, anchor, ip, q);
    if s.Written? {
      var op := WriteLiterals(t.dst, op0, t.mem, anchor, ip - anchor);
      s := Written(op, ip);
    }
  }

  lemma {:induction false} RepeatsLess(t: Task, text: seq<byte>, m: int, ip: int, k: nat, d: nat)
    requires t.Repeats(text, m, ip, k) && d <= k
    ensures t.Repeats(text, m, ip, d)
  {
    SameSplit(text, m, text, t.At(ip), k, d);
  }

  lemma BudgetAfter(t: Task, token: int, anchor: int, ip: int, code: nat, op: int, q: int)
    requires t.Valid() && Budget(t, token, anchor, q)
    requires anchor <= ip && ip + MFLIMIT <= t.Iend() && ip + MINMATCH + code <= t.Matchlimit()
    requires op == token + 1 + LengthSize(ip - anchor) + (ip - anchor) + 2 + LengthSize(code)
    requires t.directive != NotLimited ==> op + 1 + LASTLITERALS <= t.olimit
    requires t.directive == FillOutput ==> code >= 3 || op + 9 <= t.olimit
    ensures Budget(t, op, ip + MINMATCH + code, t.At(ip))
    ensures op + 3 <= Bound(t.n)
  {
    Ratio(token, anchor - t.source, ip - anchor, code);
    UnderBound(op, ip + MINMATCH + code - t.source, t.n);
  }

  /** The match length, behind an offset at `op1`. */
  method WriteMatch(t: Task, token: nat, op1: nat, anchor: nat, ip: nat, offset: nat, matchCode: nat,
                    ghost q: int, ghost e: seq<byte>, ghost lits: seq<byte>)
    returns (op: nat)
    requires t.Valid() && Pending(t, token, op1, anchor, ip, q) && |e| == token && 1 <= offset <= DISTANCE_MAX
    requires op1 + 2 <= t.dst.Length && t.dst[..op1 + 2] == e + Opening(lits) + [offset % 256, offset / 256]
    requires ip + MINMATCH + matchCode <= t.Matchlimit()
    requires t.directive != NotLimited ==> op1 + 2 + LengthSize(matchCode) + 1 + LASTLITERALS <= t.olimit
    requires t.directive == FillOutput ==> matchCode >= 3 || op1 + 2 + 9 <= t.olimit
    modifies t.dst
    ensures op == op1 + 2 + LengthSize(matchCode) <= t.dst.Length
    ensures t.dst[..op] == e + (Head(lits, matchCode) + Tail(offset, matchCode))
    ensures Budget(t, op, ip + MINMATCH + matchCode, t.At(ip))
  {
    ghost var mid := t.dst[..op1 + 2];
    BudgetAfter(t, token, anchor, ip, matchCode, op1 + 2 + LengthSize(matchCode), q);
    TokenHead(e, lits, [offset % 256, offset / 256]);
    op := WriteMatchCode(t.dst, token, op1 + 2, matchCode, mid);
    SequenceBytes(e, lits, offset, matchCode, mid, t.dst[..op]);
  }

  lemma {:induction false} TokenHead(e: seq<byte>, lits: seq<byte>, o: seq<byte>)
    ensures (e + Opening(lits) + o)[|e|] % 16 == 0
  {
    assert (e + Opening(lits) + o)[|e|] == Opening(lits)[0];
  }

  /** The highest position entered into the table so far: where the match was found,
      or where it starts. */
  function Top(ip: int, filledIp: int): int {
    if ip < filledIp then filledIp else ip
  }

  /** A match that a stage may encode. */
  ghost predicate Found(t: Task, text: seq<byte>, ip: int, filledIp: int, match_: int, lowLimit: int, offset: int, m: int) {
    && t.source <= ip && Top(ip, filledIp) + MFLIMIT <= t.Iend()
    && t.Located(match_, lowLimit, m) && offset == t.At(ip) - m
    && t.Repeats(text, m, ip, 4 + (Top(ip, filledIp) - ip))
  }

  /** The state at `_next_match`. A match that was cut has used the output up, and
      nothing is asked of the next one: it will not be written. */
  ghost predicate Ready(t: Task, text: seq<byte>, tab: seq<nat>, op: int, ip: int, filledIp: int,
                        match_: int, lowLimit: int, offset: int, m: int)
    requires t.Valid()
  {
    || NoRoom(t, op)
    || (Found(t, text, ip, filledIp, match_, lowLimit, offset, m) && t.Entries(tab, t.Index(Top(ip, filledIp) + 1)))
  }

  /** Too close to the end of the output for an offset and what must follow. */
  predicate NoRoom(t: Task, op: int) {
    t.directive == FillOutput && op + 2 + 1 + MFLIMIT - MINMATCH > t.olimit
  }

  /** Check output buffer overflow: where the description of the match is too long,
      the match is cut to what fits, or the block is given up. */
  method CutMatch(t: Task, op: nat, ip0: nat, filledIp: nat, code0: nat) returns (ok: bool, ip: nat, matchCode: nat)
    requires t.Valid() && t.source <= ip0 && Top(ip0, filledIp) + MFLIMIT <= t.Iend()
    requires ip0 + MINMATCH + code0 > Top(ip0, filledIp)
    requires t.Entries(t.table[..], t.Index(Top(ip0, filledIp) + 1))
    requires t.directive == FillOutput ==> op + 9 <= t.olimit
    modifies t.table
    ensures matchCode <= code0
    ensures !ok ==> t.directive == LimitedOutput && op + 1 + LASTLITERALS + LengthSize(matchCode) > t.olimit
    ensures ok ==> ip == ip0 + MINMATCH + matchCode
    ensures ok ==> t.Entries(t.table[..], t.Index(ip))
    ensures ok && t.directive != NotLimited ==> op + LengthSize(matchCode) + 1 + LASTLITERALS <= t.olimit
    ensures ok && t.directive == FillOutput ==> matchCode >= 3 || op + 9 <= t.olimit
    ensures ok ==> ip > Top(ip0, filledIp) || (t.directive == FillOutput && op + LengthSize(matchCode) + 6 >= t.olimit)
    ensures t.directive != FillOutput ==> t.table[..] == old(t.table[..])
  {
    ok, matchCode, ip := true, code0, ip0 + MINMATCH + code0;
    LengthSizeIs(matchCode);
    if t.directive != NotLimited && op + (1 + LASTLITERALS) + (matchCode + 240) / 255 > t.olimit {
      if t.directive == FillOutput {
        var newMatchCode := 15 - 1 + (t.olimit - op - 1 - LASTLITERALS) * 255;
        assert newMatchCode < matchCode;
        ip := ip - (matchCode - newMatchCode);
        matchCode := newMatchCode;
        LengthSizeIs(matchCode);
        if ip <= filledIp {
          ClearPositions(t, ip, filledIp);
        }
      } else {
        ok := false;
      }
    }
  }

  /** The match found is as long as the text allows, and reaches past what was entered. */
  lemma {:induction false} FullLength(t: Task, text: seq<byte>, ip: nat, filledIp: nat, match_: int, lowLimit: int,
                                      offset: int, m: int, code: nat)
    requires |text| == t.dictSize + t.n && Found(t, text, ip, filledIp, match_, lowLimit, offset, m)
    requires LongestMatch(t, text, m, ip, MINMATCH + code)
    ensures t.Repeats(text, m, ip, MINMATCH + code)
    ensures ip + MINMATCH + code > Top(ip, filledIp) && ip + MINMATCH + code <= t.Matchlimit()
  {
    MatchReaches(t, text, m, ip, 4 + (Top(ip, filledIp) - ip), MINMATCH + code);
  }

  /** The match length, cut to what fits. */
  method MeasureMatch(t: Task, op: nat, ip0: nat, filledIp: nat, match_: int, lowLimit: int, ghost offset: int,
                      ghost m: int, ghost text: seq<byte>)
    returns (ok: bool, ip: nat, code: nat)
    requires t.Valid() && t.Reads(text) && Found(t, text, ip0, filledIp, match_, lowLimit, offset, m)
    requires t.Entries(t.table[..], t.Index(Top(ip0, filledIp) + 1))
    requires t.directive == FillOutput ==> op + 9 <= t.olimit
    modifies t.table
    ensures t.Repeats(text, m, ip0, MINMATCH + code) && ip0 + MINMATCH + code <= t.Matchlimit()
    ensures !ok ==> t.directive == LimitedOutput && op + 1 + LASTLITERALS + LengthSize(code) > t.olimit
    ensures ok ==> ip == ip0 + MINMATCH + code && t.Entries(t.table[..], t.Index(ip))
    ensures ok && t.directive != NotLimited ==> op + LengthSize(code) + 1 + LASTLITERALS <= t.olimit
    ensures ok && t.directive == FillOutput ==> code >= 3 || op + 9 <= t.olimit
    ensures ok ==> ip > Top(ip0, filledIp) || (t.directive == FillOutput && op + LengthSize(code) + 6 >= t.olimit)
    ensures t.directive != FillOutput ==> t.table[..] == old(t.table[..])
  {
    RepeatsLess(t, text, m, ip0, 4 + (Top(ip0, filledIp) - ip0), 4);
    var matchCode := MatchLength(t, ip0, match_, lowLimit, m, text);
    FullLength(t, text, ip0, filledIp, match_, lowLimit, offset, m, matchCode);
    ok, ip, code := CutMatch(t, op, ip0, filledIp, matchCode);
    RepeatsLess(t, text, m, ip0, MINMATCH + matchCode, MINMATCH + code);
  }

  lemma MatchUnderBound(t: Task, token: int, anchor: int, ip: int, code: nat, q: int)
    requires t.Valid() && Budget(t, token, anchor, q)
    requires anchor <= ip && ip + MINMATCH + code <= t.Matchlimit()
    ensures token + 1 + LengthSize(ip - anchor) + (ip - anchor) + 2 + (1 + LASTLITERALS) + LengthSize(code) <= Bound(t.n)
  {
    Ratio(token, anchor - t.source, ip - anchor, code);
    UnderBound(token + 1 + LengthSize(ip - anchor) + (ip - anchor) + 2 + LengthSize(code),
               ip + MINMATCH + code - t.source, t.n);
  }

  /** From `_next_match` on: offset, match length, and the table behind them. `e` is
      the output before the token, `lits` the literals behind it. */
  method EncodeMatch(t: Task, token: nat, op0: nat, anchor: nat, ip0: nat, filledIp: nat,
                     match_: int, lowLimit: int, offset: int, ghost m: int, ghost text: seq<byte>,
                     ghost q: int, ghost e: seq<byte>, ghost lits: seq<byte>)
    returns (s: Step, ghost code: nat)
    requires t.Valid() && t.Reads(text) && Pending(t, token, op0, anchor, ip0, q)
    requires |e| == token && op0 <= t.dst.Length && t.dst[..op0] == e + Opening(lits)
    requires Ready(t, text, t.table[..], op0, ip0, filledIp, match_, lowLimit, offset, m)
    modifies t.dst, t.table
    ensures s.GiveUp? ==> t.directive == LimitedOutput && t.olimit < Bound(t.n)
    ensures s.Rewind? ==> t.directive == FillOutput && t.dst[..] == old(t.dst[..])
    ensures s.Written? ==> s.ip == ip0 + MINMATCH + code <= t.Matchlimit() && t.Entries(t.table[..], t.Index(s.ip))
    ensures s.Written? ==> t.Repeats(text, m, ip0, MINMATCH + code) && 1 <= offset == t.At(ip0) - m <= DISTANCE_MAX
    ensures s.Written? ==> s.op <= t.dst.Length && t.dst[..s.op] == e + (Head(lits, code) + Tail(offset, code))
    ensures s.Written? ==> Budget(t, s.op, s.ip, t.At(ip0)) && (s.ip > filledIp || NoRoom(t, s.op + 1))
    ensures t.directive != FillOutput ==> t.table[..] == old(t.table[..])
  {
    var op, c := op0, 0;
    code := 0;
    if NoRoom(t, op) {
      return Rewind, 0;
    }
    LiteralsUnderBound(token, anchor - t.source, ip0 - anchor, t.n);
    WriteOffset(t.dst, op, if t.mode == UsingExtDict then offset else PlainOffset(t, ip0, match_, lowLimit, offset, m));
    var ok, ip;
    ok, ip, c := MeasureMatch(t, op + 2, ip0, filledIp, match_, lowLimit, offset, m, text);
    code := c;
    if !ok {
      MatchUnderBound(t, token, anchor, ip0, c, q);
      return GiveUp, c;
    }
    op := WriteMatch(t, token, op, anchor, ip0, offset, c, q, e, lits);
    s := Written(op, ip);
  }

  /** Within one segment the offset is the distance of the two pointers. */
  function PlainOffset(t: Task, ip: int, match_: int, lowLimit: int, ghost offset: int, ghost m: int): (r: int)
    requires t.mode != UsingExtDict && t.Located(match_, lowLimit, m) && offset == t.At(ip) - m
    ensures r == offset
  {
    ip - match_
  }

  // ---------------------------------------------------------------------
  // The loops
  // ---------------------------------------------------------------------

  /** The output `e` stands for the source up to `anchor`. */
  ghost predicate Sent(t: Task, text: seq<byte>, e: seq<byte>, anchor: int, q: int)
    requires |text| == t.dictSize + t.n
  {
    && Budget(t, |e|, anchor, q) && anchor <= t.Iend()
    && Emits(e, text[..t.dictSize], text[..t.At(anchor)], q)
  }

  lemma {:induction false} NothingSent(t: Task, text: seq<byte>)
    requires t.Valid() && |text| == t.dictSize + t.n
    ensures Sent(t, text, [], t.source, 0)
  {
    EmitsNothing(text[..t.dictSize]);
  }

  lemma {:induction false} MatchSent(t: Task, text: seq<byte>, e: seq<byte>, anchor: nat, lits: seq<byte>, ip: nat,
                                     m: int, code: nat, off: nat, q: int, e2: seq<byte>, end: nat)
    requires t.Valid() && t.Reads(text) && Sent(t, text, e, anchor, q) && anchor <= ip && end == ip + MINMATCH + code
    requires t.Repeats(text, m, ip, MINMATCH + code) && 1 <= off <= DISTANCE_MAX && off == t.At(ip) - m
    requires lits == t.mem[anchor..anchor + (ip - anchor)]
    requires e2 == e + (Head(lits, code) + Tail(off, code)) && Budget(t, |e2|, end, t.At(ip))
    ensures Sent(t, text, e2, end, t.At(ip))
  {
    SourceLiterals(t, text, anchor, ip);
    TextEmits(text, t.dictSize, e, t.At(anchor), t.At(ip), m, code, off, q, lits, e2, t.At(end));
  }

  lemma {:induction false} TextEmits(text: seq<byte>, h: nat, e: seq<byte>, a: nat, p: nat, m: int, code: nat, off: nat,
                                     q: int, lits: seq<byte>, e2: seq<byte>, b: nat)
    requires h <= |text| && a <= p && b == p + (MINMATCH + code) <= |text| && 0 <= m && 1 <= off == p - m <= DISTANCE_MAX
    requires Emits(e, text[..h], text[..a], q) && Same(text, m, text, p, MINMATCH + code)
    requires lits == text[a..p] && e2 == e + (Head(lits, code) + Tail(off, code))
    ensures Emits(e2, text[..h], text[..b], p)
  {
    SameSlices(text, m, text, p, MINMATCH + code);
    EmitsMatch(e, text[..h], text, a, p, m, code, q, lits, e2, text[..a], text[..b]);
  }

  /** Where the inner loop leaves off. */
  datatype Round = Zero | Finish(op: nat, anchor: nat) | Again(op: nat, anchor: nat)

  lemma Prefix(d: seq<byte>, op: nat, e: seq<byte>, x: seq<byte>)
    requires op <= |d| && d[..op] == e + x
    ensures |e| <= op && d[..|e|] == e
  {
    assert d[..|e|] == d[..op][..|e|];
  }

  /** A match is ready at `ip`, and its token and literals are written. */
  ghost predicate Matching(t: Task, text: seq<byte>, tab: seq<nat>, d: seq<byte>, token: nat, op: nat, anchor: nat, ip: nat,
                           filledIp: nat, match_: int, lowLimit: int, offset: int, m: int, q: int, e: seq<byte>)
    requires t.Valid() && |text| == t.dictSize + t.n
  {
    && Pending(t, token, op, anchor, ip, q) && |e| == token && op <= |d| && Sent(t, text, e, anchor, q)
    && d[..op] == e + Opening(t.mem[anchor..anchor + (ip - anchor)])
    && Ready(t, text, tab, op, ip, filledIp, match_, lowLimit, offset, m)
  }

  /** One match: where it takes the output. */
  method OneMatch(t: Task, token: nat, op0: nat, anchor: nat, ip0: nat, filledIp: nat,
                  match_: int, lowLimit: int, offset: int, ghost m: int, ghost text: seq<byte>,
                  ghost q: int, ghost e0: seq<byte>)
    returns (s: Step, ghost e: seq<byte>)
    requires t.Valid() && t.Reads(text)
    requires Matching(t, text, t.table[..], t.dst[..], token, op0, anchor, ip0, filledIp, match_, lowLimit, offset, m, q, e0)
    modifies t.dst, t.table
    ensures s.GiveUp? ==> t.directive == LimitedOutput && t.olimit < Bound(t.n)
    ensures s.Rewind? ==> t.dst[..token] == e0
    ensures s.Written? ==> ip0 < s.ip <= t.Matchlimit() && t.Entries(t.table[..], t.Index(s.ip))
    ensures s.Written? ==> s.ip > filledIp || NoRoom(t, s.op + 1)
    ensures t.directive != FillOutput ==> t.table[..] == old(t.table[..])
    ensures s.Written? ==> s.op == |e| <= t.dst.Length && t.dst[..s.op] == e && Sent(t, text, e, s.ip, t.At(ip0))
  {
    ghost var lits := t.mem[anchor..anchor + (ip0 - anchor)];
    Prefix(t.dst[..], op0, e0, Opening(lits));
    ghost var code;
    s, code := EncodeMatch(t, token, op0, anchor, ip0, filledIp, match_, lowLimit, offset, m, text, q, e0, lits);
    if s.Written? {
      e := e0 + (Head(lits, code) + Tail(offset, code));
      MatchSent(t, text, e0, anchor, lits, ip0, m, code, offset, q, e, s.ip);
    } else {
      e := [];
    }
  }

  lemma {:induction false} NowReady(t: Task, text: seq<byte>, tab: seq<nat>, op: int, ip: nat, filledIp: nat,
                                    match_: int, lowLimit: int, offset: int, m: int)
    requires t.Valid() && t.source < ip && ip + MFLIMIT <= t.Iend() && (ip > filledIp || NoRoom(t, op))
    requires t.Located(match_, lowLimit, m) && t.Repeats(text, m, ip, 4) && offset == t.At(ip) - m
    requires t.Entries(tab, t.Index(ip + 1))
    ensures Ready(t, text, tab, op, ip, filledIp, match_, lowLimit, offset, m)
  {
  }

  /** The token of a sequence without literals. */
  method NextToken(t: Task, token: nat, ip: nat, ghost q: int, ghost e: seq<byte>)
    requires t.Valid() && Budget(t, token, ip, q) && ip + MFLIMIT <= t.Iend()
    requires token == |e| <= t.dst.Length && t.dst[..token] == e && token > 0
    modifies t.dst
    ensures token + 1 <= t.dst.Length && Pending(t, token, token + 1, ip, ip, q)
    ensures t.dst[..token + 1] == e + Opening(t.mem[ip..ip + (ip - ip)])
  {
    UnderBound(token, ip - t.source, t.n);
    t.dst[token] := 0;
    assert t.mem[ip..ip + (ip - ip)] == [];
    assert Opening([]) == [0];
  }

  /** Test next position: another match right behind the last one. */
  method Follow(t: Task, token: nat, ip: nat, filledIp: nat, ghost text: seq<byte>, ghost q: int, ghost e: seq<byte>)
    returns (next: bool, match_: int, lowLimit: int, offset: int, ghost m: int)
    requires t.Valid() && t.Reads(text) && Budget(t, token, ip, q)
    requires t.source + 2 <= ip < t.MflimitPlusOne() && (ip > filledIp || NoRoom(t, token + 1))
    requires t.Entries(t.table[..], t.Index(ip))
    requires 0 < token == |e| <= t.dst.Length && t.dst[..token] == e && Sent(t, text, e, ip, q)
    modifies t.dst, t.table
    ensures t.Entries(t.table[..], t.Index(ip + 1)) && (!next ==> t.dst[..token] == e)
    ensures next ==> Matching(t, text, t.table[..], t.dst[..], token, token + 1, ip, ip, filledIp, match_, lowLimit, offset, m, q, e)
  {
    next, match_, lowLimit, offset, m := TestNext(t, ip, text);
    if next {
      NowReady(t, text, t.table[..], token + 1, ip, filledIp, match_, lowLimit, offset, m);
      NextToken(t, token, ip, q, e);
    }
  }

  /** How the matches may end, when they began at `anchor`. */
  ghost predicate Rounded(t: Task, text: seq<byte>, tab: seq<nat>, d: seq<byte>, anchor: nat, out: Round, e: seq<byte>, q: int)
    requires t.Valid() && |text| == t.dictSize + t.n
  {
    && (out.Zero? ==> t.directive == LimitedOutput && t.olimit < Bound(t.n))
    && (!out.Zero? ==> out.op == |e| <= |d| && d[..out.op] == e && Sent(t, text, e, out.anchor, q))
    && (t.directive != FillOutput ==> t.Entries(tab, t.Index(t.Iend())))
    && (out.Again? ==> anchor < out.anchor < t.MflimitPlusOne() && t.Entries(tab, t.Index(out.anchor + 1)))
  }

  datatype Turn = Leave(out: Round) | Another(token: nat, op: nat, ip: nat, match_: int, lowLimit: int, offset: int)

  /** After a match that ends at `ip`, a look for the next. */
  method NextMatch(t: Task, op: nat, anchor: nat, ip: nat, filledIp: nat, ghost text: seq<byte>, ghost q: int, ghost e: seq<byte>)
    returns (turn: Turn, ghost m: int)
    requires t.Valid() && t.Reads(text) && anchor < ip <= t.Matchlimit() && t.source + 2 <= ip
    requires t.Entries(t.table[..], t.Index(ip)) && (ip > filledIp || NoRoom(t, op + 1))
    requires 0 < op == |e| <= t.dst.Length && t.dst[..op] == e && Sent(t, text, e, ip, q)
    requires t.directive != FillOutput ==> t.Entries(t.table[..], t.Index(t.Iend()))
    modifies t.dst, t.table
    ensures turn.Leave? ==> Rounded(t, text, t.table[..], t.dst[..], anchor, turn.out, e, q)
    ensures turn.Another? ==> turn.ip == ip && turn.token == op
    ensures turn.Another? ==> Matching(t, text, t.table[..], t.dst[..], turn.token, turn.op, turn.ip, turn.ip, filledIp,
                                       turn.match_, turn.lowLimit, turn.offset, m, q, e)
  {
    if ip >= t.MflimitPlusOne() {
      return Leave(Finish(op, ip)), 0;
    }
    var next, match_, lowLimit, offset;
    next, match_, lowLimit, offset, m := Follow(t, op, ip, filledIp, text, q, e);
    turn := if next then Another(op, op + 1, ip, match_, lowLimit, offset) else Leave(Again(op, ip));
  }

  /** One match, and what follows. */
  method MatchAndFollow(t: Task, token: nat, op: nat, anchor: nat, ip: nat, filledIp: nat, match_: int, lowLimit: int,
                        offset: int, ghost m0: int, ghost text: seq<byte>, ghost q0: int, ghost e0: seq<byte>)
    returns (turn: Turn, ghost m: int, ghost q: int, ghost e: seq<byte>)
    requires t.Valid() && t.Reads(text)
    requires Matching(t, text, t.table[..], t.dst[..], token, op, anchor, ip, filledIp, match_, lowLimit, offset, m0, q0, e0)
    modifies t.dst, t.table
    ensures turn.Leave? ==> Rounded(t, text, t.table[..], t.dst[..], anchor, turn.out, e, q)
    ensures turn.Another? ==> ip < turn.ip
    ensures turn.Another? ==> Matching(t, text, t.table[..], t.dst[..], turn.token, turn.op, turn.ip, turn.ip, filledIp,
                                       turn.match_, turn.lowLimit, turn.offset, m, q, e)
  {
    var s;
    m, q := m0, q0;
    s, e := OneMatch(t, token, op, anchor, ip, filledIp, match_, lowLimit, offset, m0, text, q0, e0);
    if s.GiveUp? {
      return Leave(Zero), m, q, e;
    }
    if s.Rewind? {
      return Leave(Finish(token, anchor)), m, q, e0;
    }
    q := t.At(ip);
    turn, m := NextMatch(t, s.op, anchor, s.ip, filledIp, text, q, e);
  }

  /** The inner loop: matches that follow each other without literals. */
  method Matches(t: Task, token0: nat, op0: nat, anchor0: nat, ip0: nat, filledIp: nat,
                 match0: int, lowLimit0: int, offset0: int, ghost m0: int, ghost text: seq<byte>,
                 ghost q0: int, ghost e0: seq<byte>)
    returns (out: Round, ghost e: seq<byte>, ghost q: int)
    requires t.Valid() && t.Reads(text)
    requires Matching(t, text, t.table[..], t.dst[..], token0, op0, anchor0, ip0, filledIp, match0, lowLimit0, offset0, m0, q0, e0)
    modifies t.dst, t.table
    ensures Rounded(t, text, t.table[..], t.dst[..], anchor0, out, e, q)
  {
    var token: nat, op, anchor, ip, match_, lowLimit, offset := token0, op0, anchor0, ip0, match0, lowLimit0, offset0;
    ghost var m := m0;
    e, q := e0, q0;
    while true
      invariant anchor0 <= anchor
      invariant Matching(t, text, t.table[..], t.dst[..], token, op, anchor, ip, filledIp, match_, lowLimit, offset, m, q, e)
      decreases t.Iend() - ip
    {
      var turn;
      turn, m, q, e := MatchAndFollow(t, token, op, anchor, ip, filledIp, match_, lowLimit, offset, m, text, q, e);
      if turn.Leave? {
        return turn.out, e, q;
      }
      token, op, anchor, ip := turn.token, turn.op, turn.ip, turn.ip;
      match_, lowLimit, offset := turn.match_, turn.lowLimit, turn.offset;
    }
  }

  /** Find a match, and catch up. */
  method Search(t: Task, anchor: nat, ip0: nat, forwardH: nat, ghost text: seq<byte>)
    returns (found: bool, ip: nat, filledIp: nat, match_: int, lowLimit: int, offset: int, ghost m: int)
    requires t.Valid() && t.Reads(text) && t.source <= anchor < ip0 <= t.MflimitPlusOne() && forwardH == t.Key(ip0)
    requires t.Entries(t.table[..], t.Index(ip0))
    modifies t.table
    ensures t.Entries(t.table[..], t.Index(t.Iend()))
    ensures found ==> anchor <= ip <= filledIp && t.Entries(t.table[..], t.Index(Top(ip, filledIp) + 1))
    ensures found ==> Found(t, text, ip, filledIp, match_, lowLimit, offset, m)
  {
    found, filledIp, match_, lowLimit, offset, m := FindMatch(t, ip0, forwardH, text);
    ip := filledIp;
    if found {
      ip, match_, m := CatchUp(t, filledIp, match_, lowLimit, anchor, m, text);
    }
  }

  /** One round of the main loop: search, catch up, literals, matches. */
  method Iteration(t: Task, op: nat, anchor: nat, ip0: nat, forwardH: nat, ghost text: seq<byte>, ghost q0: int, ghost e0: seq<byte>)
    returns (out: Round, ghost e: seq<byte>, ghost q: int)
    requires t.Valid() && t.Reads(text) && Sent(t, text, e0, anchor, q0)
    requires anchor < ip0 <= t.MflimitPlusOne() && forwardH == t.Key(ip0)
    requires t.Entries(t.table[..], t.Index(ip0))
    requires op == |e0| <= t.dst.Length && t.dst[..op] == e0
    modifies t.dst, t.table
    ensures out.Zero? ==> t.directive == LimitedOutput && t.olimit < Bound(t.n)
    ensures !out.Zero? ==> out.op == |e| <= t.dst.Length && t.dst[..out.op] == e
    ensures !out.Zero? ==> Sent(t, text, e, out.anchor, q)
    ensures t.directive != FillOutput ==> t.Entries(t.table[..], t.Index(t.Iend()))
    ensures out.Again? ==> anchor < out.anchor < t.MflimitPlusOne() && t.Entries(t.table[..], t.Index(out.anchor + 1))
  {
    e, q := e0, q0;
    var found, ip, filledIp, match_, lowLimit, offset;
    ghost var m;
    found, ip, filledIp, match_, lowLimit, offset, m := Search(t, anchor, ip0, forwardH, text);
    if !found {
      return Finish(op, anchor), e, q;
    }
    var s := EncodeLiterals(t, op, anchor, ip, q);
    if s.GiveUp? {
      return Zero, e, q;
    }
    if s.Rewind? {
      return Finish(op, anchor), e, q;
    }
    out, e, q := Matches(t, op, s.op, anchor, ip, filledIp, match_, lowLimit, offset, m, text, q, e);
  }

  /** A block of `r` bytes for `consumed` bytes of source is within all limits. */
  ghost predicate Closes(t: Task, r: int, consumed: int) {
    && 0 <= consumed <= t.n && (t.directive != FillOutput ==> consumed == t.n)
    && r <= Bound(t.n) && (t.directive != NotLimited ==> r <= t.olimit)
    && (t.directive == FillOutput && consumed < t.n ==> t.olimit <= r + 1)
  }

  /** `b` is a block for the first `consumed` bytes of the source. */
  ghost predicate Compressed(t: Task, text: seq<byte>, b: seq<byte>, consumed: nat)
    requires |text| == t.dictSize + t.n
  {
    && Closes(t, |b|, consumed) && (consumed == 0 ==> b == [0])
    && Decode(b, text[..t.dictSize]) == Some(text[..t.dictSize + consumed])
    && WellFormedBlock(b, text[..t.dictSize])
  }

  /** The last run that fills what is left of the output. */
  lemma FillRun(op: int, lastRun: nat, olimit: int)
    requires op + lastRun + 1 + (lastRun + 240) / 255 > olimit && op + 1 <= olimit
    ensures var room := olimit - op - 1;
            var run := room - (room + 241) / 256;
            && 0 <= run < lastRun && op + 1 + LengthSize(run) + run <= olimit
            && (room >= 5 ==> run >= 5) && (room >= 8 ==> run >= 8)
            && op + 1 + LengthSize(run) + run == (if (olimit - op) % 256 == 16 then olimit - 1 else olimit)
            && op + 1 + LengthSize(run + 1) + run + 1 > olimit
  {
    var room := olimit - op - 1;
    var a := (room + 241) / 256;
    var run := room - a;
    LengthSizeIs(run);
    LengthSizeIs(run + 1);
    var s := room + 241 - 256 * a;
    assert run == 255 * a + s - 241 && 0 <= s < 256;
    RunRest(run, a, s);
    assert (olimit - op) % 256 == 16 <==> s == 0;
  }

  lemma RunRest(run: int, a: int, s: int)
    requires run == 255 * a + s - 241 && 0 <= s < 256 && run >= 0
    ensures (run + 240) / 255 == if s == 0 then a - 1 else a
    ensures (run + 241) / 255 >= a
  {
    assert run + 240 == 255 * a + (s - 1);
  }

  lemma LastRunUnderBound(op: int, a: int, lastRun: nat, n: nat)
    requires 255 * (op - a) <= a && a + lastRun <= n
    ensures op + lastRun + 1 + (lastRun + 240) / 255 <= Bound(n)
  {
  }

  /** How many last literals there are room for; none at all is the end of a limited block.
      Where they are cut, not one more would fit: one byte stays unused exactly if the
      room left is 16 bytes above a multiple of 256. */
  method MeasureLastRun(t: Task, op: nat, anchor: nat, ghost q: int) returns (ok: bool, lastRun: nat)
    requires t.Valid() && Budget(t, op, anchor, q) && anchor <= t.Iend()
    requires t.directive == FillOutput ==> 1 <= t.olimit
    ensures !ok ==> t.directive == LimitedOutput && t.olimit < Bound(t.n)
    ensures anchor + lastRun <= t.Iend() && (t.directive != FillOutput ==> anchor + lastRun == t.Iend())
    ensures ok ==> op + 1 + LengthSize(lastRun) + lastRun <= Bound(t.n)
    ensures ok && t.directive != NotLimited ==> op + 1 + LengthSize(lastRun) + lastRun <= t.olimit
    ensures ok && op > 0 ==> q + MFLIMIT <= t.At(anchor + lastRun) && LASTLITERALS <= lastRun
    ensures anchor + lastRun < t.Iend() ==>
              && op + 1 + LengthSize(lastRun + 1) + lastRun + 1 > t.olimit
              && op + 1 + LengthSize(lastRun) + lastRun == if (t.olimit - op) % 256 == 16 then t.olimit - 1 else t.olimit
  {
    ok, lastRun := true, t.Iend() - anchor;
    LengthSizeIs(lastRun);
    LastRunUnderBound(op, anchor - t.source, lastRun, t.n);
    if t.directive != NotLimited && op + lastRun + 1 + (lastRun + 255 - RUN_MASK) / 255 > t.olimit {
      if t.directive == FillOutput {
        FillRun(op, lastRun, t.olimit);
        lastRun := t.olimit - op - 1;
        lastRun := lastRun - (lastRun + 256 - RUN_MASK) / 256;
        LengthSizeIs(lastRun);
        LastRunUnderBound(op, anchor - t.source, lastRun, t.n);
      } else {
        ok := false;
      }
    }
  }

  lemma {:induction false} TextDecodes(text: seq<byte>, h: nat, e: seq<byte>, a: nat, end: nat, q: int, lits: seq<byte>, b: seq<byte>)
    requires h <= |text| && a <= end <= |text| && Emits(e, text[..h], text[..a], q) && lits == text[a..end]
    requires |e| > 0 ==> q + MFLIMIT <= end && a + LASTLITERALS <= end
    requires b == e + Opening(lits)
    ensures Decode(b, text[..h]) == Some(text[..end]) && WellFormedBlock(b, text[..h])
  {
    var w, x := text[..a], text[..end];
    TextUpTo(text, a, end, lits);
    EmitsLast(e, text[..h], w, q, lits, b);
    assert w + lits == x;
  }

  lemma TextUpTo(text: seq<byte>, a: nat, end: nat, lits: seq<byte>)
    requires a <= end <= |text| && lits == text[a..end]
    ensures text[..a] + lits == text[..end]
  {
  }

  lemma {:induction false} LastSent(t: Task, text: seq<byte>, e: seq<byte>, anchor: nat, q: int, lastRun: nat,
                                    b: seq<byte>, consumed: nat)
    requires t.Valid() && t.Reads(text) && Sent(t, text, e, anchor, q) && anchor + lastRun == t.source + consumed
    requires |e| > 0 ==> q + MFLIMIT <= t.At(anchor + lastRun) && LASTLITERALS <= lastRun
    requires Closes(t, |b|, consumed) && b == e + Opening(t.mem[anchor..anchor + lastRun])
    ensures Compressed(t, text, b, consumed)
  {
    LastRunOfText(t, text, anchor, lastRun);
    if consumed == 0 {
      assert e == [] && b == Opening([]);
    }
    TextDecodes(text, t.dictSize, e, t.At(anchor), t.dictSize + consumed, q, t.mem[anchor..anchor + lastRun], b);
  }

  lemma LastRunOfText(t: Task, text: seq<byte>, anchor: nat, lastRun: nat)
    requires t.Valid() && t.Reads(text) && t.source <= anchor && anchor + lastRun <= t.Iend()
    ensures t.mem[anchor..anchor + lastRun] == text[t.At(anchor)..t.At(anchor) + lastRun]
  {
    SourceLiterals(t, text, anchor, anchor + lastRun);
  }

  /** Encode Last Literals */
  method LastLiterals(t: Task, op0: nat, anchor: nat, ghost q: int, ghost e: seq<byte>)
    returns (r: nat, lastRun: nat)
    requires t.Valid() && Budget(t, op0, anchor, q) && anchor <= t.Iend()
    requires op0 == |e| <= t.dst.Length && t.dst[..op0] == e
    requires t.directive == FillOutput ==> 1 <= t.olimit
    modifies t.dst
    ensures r == 0 ==> t.directive == LimitedOutput && t.olimit < Bound(t.n)
    ensures r > 0 ==> r <= t.dst.Length && anchor + lastRun <= t.Iend()
    ensures r > 0 ==> t.dst[..r] == e + Opening(t.mem[anchor..anchor + lastRun])
    ensures r > 0 ==> Closes(t, r, anchor + lastRun - t.source)
    ensures r > 0 && op0 > 0 ==> q + MFLIMIT <= t.At(anchor + lastRun) && LASTLITERALS <= lastRun
  {
    var ok, run := MeasureLastRun(t, op0, anchor, q);
    r, lastRun := 0, run;
    if ok {
      r := WriteLastRun(t.dst, op0, t.mem, anchor, lastRun);
    }
  }

  /** First byte, and the main loop. */
  method MainLoop(t: Task, ghost text: seq<byte>) returns (out: Round, ghost e: seq<byte>, ghost q: int)
    requires t.Valid() && t.Reads(text) && t.n >= MFLIMIT + 1 && t.Entries(t.table[..], t.startIndex + 1)
    modifies t.dst, t.table
    ensures t.directive != FillOutput ==> t.Entries(t.table[..], t.startIndex + t.n)
    ensures !out.Again? && (out.Zero? ==> t.directive == LimitedOutput && t.olimit < Bound(t.n))
    ensures !out.Zero? ==> out.op == |e| <= t.dst.Length && t.dst[..out.op] == e
    ensures !out.Zero? ==> Sent(t, text, e, out.anchor, q)
  {
    NothingSent(t, text);
    e, q := [], 0;
    var ip := t.source;
    var h := t.Key(ip);
    PutPosition(t, ip, h, t.Index(ip + 1));
    var op: nat, anchor := 0, t.source;
    while true
      invariant t.source <= anchor < t.MflimitPlusOne() && t.Entries(t.table[..], t.Index(anchor + 1))
      invariant op == |e| <= t.dst.Length && t.dst[..op] == e && Sent(t, text, e, anchor, q)
      decreases t.Iend() - anchor
    {
      ip := anchor + 1;
      var forwardH := t.Key(ip);
      out, e, q := Iteration(t, op, anchor, ip, forwardH, text, q, e);
      if !out.Again? {
        return;
      }
      op, anchor := out.op, out.anchor;
    }
  }

  /** The block, for the text that history and source make up. */
  method CompressText(t: Task, ghost text: seq<byte>) returns (r: nat, consumed: nat)
    requires t.Valid() && t.Reads(text) && t.Entries(t.table[..], t.startIndex + 1)
    requires t.directive == FillOutput ==> 1 <= t.olimit
    modifies t.dst, t.table
    ensures t.directive != FillOutput ==> t.Entries(t.table[..], t.startIndex + t.n)
    ensures r == 0 ==> t.directive == LimitedOutput && t.olimit < Bound(t.n)
    ensures r > 0 ==> r <= t.dst.Length && Compressed(t, text, t.dst[..r], consumed)
  {
    NothingSent(t, text);
    ghost var e: seq<byte>, q: int := [], 0;
    var op, anchor := 0, t.source;
    if t.n >= MFLIMIT + 1 {
      var out;
      out, e, q := MainLoop(t, text);
      if out.Zero? {
        return 0, 0;
      }
      op, anchor := out.op, out.anchor;
    }
    var lastRun;
    r, lastRun := LastLiterals(t, op, anchor, q, e);
    consumed := anchor + lastRun - t.source;
    if r > 0 {
      LastSent(t, text, e, anchor, q, lastRun, t.dst[..r], consumed);
    }
  }

  /** LZ4_compress_generic_validated, without the update of the stream state. */
  method CompressValidated(t: Task) returns (r: nat, consumed: nat)
    requires t.Valid() && t.Entries(t.table[..], t.startIndex + 1)
    modifies t.dst, t.table
    ensures t.directive != FillOutput ==> t.Entries(t.table[..], t.startIndex + t.n)
    ensures r == 0 ==> if t.directive == FillOutput then t.olimit < 1 else t.directive == LimitedOutput && t.olimit < Bound(t.n)
    ensures r > 0 ==> r <= t.dst.Length && Compressed(t, t.Text(), t.dst[..r], consumed)
  {
    if t.directive == FillOutput && t.olimit < 1 {
      return 0, 0;
    }
    TextReads(t);
    r, consumed := CompressText(t, t.Text());
  }
}
