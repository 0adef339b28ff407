/** Copying one match: the part of a decoding iteration from `safe_match_copy` on. */
module MatchStage {
  import opened Bytes
  import opened BlockFormat
  import opened WideCopy
  import opened DecoderState

  /** What the output holds after a match of `length` bytes, of which a partial
      decode writes only as many as there is room for. */
  ghost predicate Copied(j: Job, a: seq<byte>, op: nat, b: seq<byte>, op2: nat, offset: nat, length: nat)
    requires j.Valid() && j.start <= op <= op2 <= j.oend && |a| == |b| == j.dst.Length
  {
    && offset <= |j.Window(a, op)|
    && op2 == (if j.partial then Min(op + length, j.oend) else op + length)
    && (!(j.partial && offset == 0) ==> j.Window(b, op2) == Extend(j.Window(a, op), offset, op2 - op))
  }

  /** `while (op < end) *op++ = *match++` */
  method CopyBytes(dst: array<byte>, op0: nat, match0: nat, e: nat)
    requires match0 <= op0 <= e <= dst.Length
    modifies dst
    ensures match0 < op0 ==> dst[..e] == Extend(old(dst[..op0]), op0 - match0, e - op0)
    ensures Kept(old(dst[..]), dst[..], op0, e)
  {
    ghost var off := op0 - match0;
    ghost var a := dst[..op0];
    var op, m := op0, match0;
    while op < e
      invariant op0 <= op <= e && op - m == off
      invariant off > 0 ==> dst[..op] == Extend(a, off, op - op0)
      invariant Kept(old(dst[..]), dst[..], op0, e)
    {
      dst[op] := dst[m];
      assert off > 0 ==> dst[..op + 1] == Extend(a, off, op - op0) + [Extend(a, off, op - op0)[m]];
      op, m := op + 1, m + 1;
    }
  }

  /** The rest of a match that has reached the start of the prefix. */
  method CopyRest(dst: array<byte>, op: nat, lowPrefix: nat, restSize: nat)
    requires lowPrefix < op && op + restSize <= dst.Length
    modifies dst
    ensures dst[..op + restSize] == Extend(old(dst[..op]), op - lowPrefix, restSize)
    ensures Kept(old(dst[..]), dst[..], op, op + restSize)
  {
    if restSize > op - lowPrefix {
      CopyBytes(dst, op, lowPrefix, op + restSize);
    } else {
      ghost var a := dst[..];
      CopyWithin(dst, op, lowPrefix, restSize);
      ExtendAppend(a[..op], op - lowPrefix, a[lowPrefix..lowPrefix + restSize]);
      BlitPrefix(a, op, a[lowPrefix..lowPrefix + restSize]);
    }
  }

  /** A match that starts in the external dictionary. */
  method ExtDictMatch(j: Job, op0: nat, offset: nat, length: nat) returns (op: nat)
    requires j.Valid() && j.start <= op0 && op0 + length <= j.oend
    requires j.mode == UsingExtDict && op0 - j.lowPrefix < offset <= op0 - j.lowPrefix + |j.dict|
    modifies j.dst
    ensures op == op0 + length
    ensures Kept(old(j.dst[..]), j.dst[..], op0, op)
    ensures j.Window(j.dst[..], op) == Extend(j.Window(old(j.dst[..]), op0), offset, length)
  {
    ghost var w := j.Window(j.dst[..], op0);
    ghost var a := j.dst[..];
    var copySize := j.lowPrefix - (op0 - offset);
    if length <= copySize {
      op := DictMatch(j, op0, offset, length);
    } else {
      var restSize := length - copySize;
      op := DictMatch(j, op0, offset, copySize);
      ghost var b, mid := j.dst[..], op;
      op := SplitMatch(j, op, offset, restSize);
      KeptTwice(a, b, j.dst[..], op0, mid, mid, op);
      ExtendTwice(w, offset, copySize, restSize);
    }
  }

  /** The part of such a match that lies in the dictionary. */
  method DictMatch(j: Job, op0: nat, offset: nat, n: nat) returns (op: nat)
    requires j.Valid() && j.start <= op0 && op0 + n <= j.oend
    requires j.mode == UsingExtDict && op0 - j.lowPrefix + n <= offset <= op0 - j.lowPrefix + |j.dict|
    requires offset > op0 - j.lowPrefix
    modifies j.dst
    ensures op == op0 + n
    ensures Kept(old(j.dst[..]), j.dst[..], op0, op)
    ensures j.Window(j.dst[..], op) == Extend(j.Window(old(j.dst[..]), op0), offset, n)
  {
    ghost var a := j.dst[..];
    var copySize := j.lowPrefix - (op0 - offset);
    CopyIn(j.dst, op0, j.dict, |j.dict| - copySize, n);
    op := op0 + n;
    DictPart(j, a, j.dst[..], op0, offset, n);
  }

  /** The part of such a match that lies in the prefix. */
  method SplitMatch(j: Job, op0: nat, offset: nat, restSize: nat) returns (op: nat)
    requires j.Valid() && j.start <= op0 && op0 + restSize <= j.oend
    requires j.mode == UsingExtDict && offset == op0 - j.lowPrefix > 0
    modifies j.dst
    ensures op == op0 + restSize
    ensures Kept(old(j.dst[..]), j.dst[..], op0, op)
    ensures j.Window(j.dst[..], op) == Extend(j.Window(old(j.dst[..]), op0), offset, restSize)
  {
    ghost var a := j.dst[..];
    CopyRest(j.dst, op0, j.lowPrefix, restSize);
    op := op0 + restSize;
    WindowExtend(j, a, j.dst[..], op0, offset, restSize);
    PrefixOfPrefix(j.dst[..], op0, op);
  }

  lemma DictPart(j: Job, a: seq<byte>, b: seq<byte>, op: nat, offset: nat, n: nat)
    requires j.Valid() && j.start <= op && op + n <= j.oend && |a| == |b| == j.dst.Length
    requires j.mode == UsingExtDict
    requires var copySize := j.lowPrefix - (op - offset);
             0 < copySize <= |j.dict| && n <= copySize
             && b == Blit(a, op, j.dict[|j.dict| - copySize..|j.dict| - copySize + n])
    ensures j.Window(b, op + n) == Extend(j.Window(a, op), offset, n)
  {
    var w, c := j.Window(a, op), j.lowPrefix - (op - offset);
    var x := j.dict[|j.dict| - c..|j.dict| - c + n];
    BlitPrefix(a, op, x);
    WindowAppend(j, a, b, op, x);
    assert |w| - offset == |j.dict| - c;
    assert x == w[|w| - offset..|w| - offset + n];
    ExtendAppend(w, offset, x);
  }

  /** The end of a partial decode: copy what there is room for. */
  method PartialMatch(j: Job, op0: nat, offset: nat, length: nat) returns (op: nat)
    requires j.Valid() && j.start <= op0 <= j.oend && offset <= op0 - j.Low()
    requires j.partial && op0 + length > j.oend - MATCH_SAFEGUARD_DISTANCE
    modifies j.dst
    ensures op == Min(op0 + length, j.oend)
    ensures Kept(old(j.dst[..]), j.dst[..], op0, op)
    ensures Copied(j, old(j.dst[..]), op0, j.dst[..], op, offset, length)
  {
    ghost var a := j.dst[..];
    var mlen := Min(length, j.oend - op0);
    var m := op0 - offset;
    MoveBytes(j.dst, op0, m, mlen);
    op := op0 + mlen;
    PartCopied(j, a, j.dst[..], op0, op, offset, length, mlen);
  }

  lemma PartCopied(j: Job, a: seq<byte>, b: seq<byte>, op0: nat, op: nat, offset: nat, length: nat, mlen: nat)
    requires j.Valid() && j.partial && |a| == |b| == j.dst.Length && j.start <= op0 && op == op0 + mlen <= j.oend
    requires mlen == Min(length, j.oend - op0) && offset <= op0 - j.Low()
    requires offset > 0 ==> b[..op0 + mlen] == Extend(a[..op0], offset, mlen)
    ensures Copied(j, a, op0, b, op, offset, length)
  {
    if offset > 0 {
      WindowExtend(j, a, b, op0, offset, mlen);
    }
  }

  method MoveBytes(dst: array<byte>, op: nat, m: nat, mlen: nat)
    requires m <= op && op + mlen <= dst.Length
    modifies dst
    ensures m < op ==> dst[..op + mlen] == Extend(old(dst[..op]), op - m, mlen)
    ensures Kept(old(dst[..]), dst[..], op, op + mlen)
  {
    if m + mlen > op {
      CopyBytes(dst, op, m, op + mlen);
    } else {
      ghost var a := dst[..];
      CopyWithin(dst, op, m, mlen);
      ExtendAppend(a[..op], op - m, a[m..m + mlen]);
      BlitPrefix(a, op, a[m..m + mlen]);
    }
  }

  /** The bytes of a match after the first eight, when there is room for two more
      strides past its end. */
  method MiddleMatch(dst: array<byte>, op: nat, m: nat, cpy: nat, length: nat, oend: nat, ghost r: seq<byte>)
    requires op >= 8 && cpy == op - 8 + length && length >= MINMATCH
    requires cpy <= oend - MATCH_SAFEGUARD_DISTANCE && oend <= dst.Length
    requires m + 8 <= op && Agrees(dst[..], r, op) && Repeats(r, op, op - m)
    modifies dst
    ensures Agrees(dst[..], r, cpy)
    ensures Kept(old(dst[..]), dst[..], op, oend)
  {
    ghost var a := dst[..];
    CopyStride(dst, op, m, 8, r);
    ghost var b := dst[..];
    AgreesKept(a, b, r, op, op + 8);
    KeptWider(a, b, op, op + 8, op, oend);
    if length > 16 {
      WildCopy8(dst, op + 8, m + 8, cpy, r);
      ghost var hi := WildEnd(op + 8, cpy, 8);
      AgreesKept(b, dst[..], r, op + 8, hi);
      KeptTwice(a, b, dst[..], op, oend, op + 8, hi);
      AgreesLess(dst[..], r, hi, cpy);
    } else {
      AgreesLess(dst[..], r, op + 8, cpy);
    }
  }

  /** The same close to the end of the output: the last bytes go one by one. */
  method EndMatch(dst: array<byte>, op0: nat, m0: nat, cpy: nat, oend: nat, ghost r: seq<byte>)
    requires m0 + 8 <= op0 <= oend && cpy <= oend - LASTLITERALS && oend <= dst.Length
    requires Agrees(dst[..], r, op0) && Repeats(r, op0, op0 - m0)
    modifies dst
    ensures cpy >= op0 ==> Agrees(dst[..], r, cpy)
    ensures Agrees(dst[..], r, op0)
    ensures Kept(old(dst[..]), dst[..], op0, oend)
  {
    ghost var a := dst[..];
    var op, m := op0, m0;
    var oCopyLimit := oend - 7;
    if op < oCopyLimit {
      WildCopy8(dst, op, m, oCopyLimit, r);
      ghost var hi := WildEnd(op, oCopyLimit, 8);
      AgreesKept(a, dst[..], r, op, hi);
      KeptWider(a, dst[..], op, hi, op, oend);
      AgreesLess(dst[..], r, hi, oCopyLimit);
      m := m + oCopyLimit - op;
      op := oCopyLimit;
    }
    while op < cpy
      invariant op0 <= op <= oend && op - m == op0 - m0
      invariant Agrees(dst[..], r, op)
      invariant Kept(a, dst[..], op0, oend)
    {
      ghost var b := dst[..];
      CopyStride(dst, op, m, 1, r);
      AgreesKept(b, dst[..], r, op, op + 1);
      KeptTwice(a, b, dst[..], op0, oend, op, op + 1);
      op, m := op + 1, m + 1;
    }
    AgreesLess(dst[..], r, op, op0);
    if cpy >= op0 {
      AgreesLess(dst[..], r, op, cpy);
    }
  }

  datatype Copy = Go(op: nat) | Stop(op: nat) | Refused

  /** A match inside the array, of which no byte may come within the last five. */
  method BlockMatch(j: Job, op0: nat, offset: nat, length: nat) returns (out: Copy)
    requires j.Valid() && j.start <= op0 && offset <= op0 - j.Low() && length >= MINMATCH
    requires if j.partial then op0 + length <= j.oend - MATCH_SAFEGUARD_DISTANCE
             else op0 + MATCH_SAFEGUARD_DISTANCE <= j.oend
    modifies j.dst
    ensures Kept(old(j.dst[..]), j.dst[..], op0, j.oend)
    ensures !out.Stop? && (out.Refused? <==> op0 + length > j.oend - LASTLITERALS)
    ensures out.Go? ==>
      && out.op == op0 + length
      && j.Window(j.dst[..], out.op) == Extend(j.Window(old(j.dst[..]), op0), offset, length)
  {
    ghost var a := j.dst[..];
    var refused := BlockCopy(j.dst, op0, offset, length, j.oend);
    if refused {
      return Refused;
    }
    WindowExtend(j, a, j.dst[..], op0, offset, length);
    out := Go(op0 + length);
  }

  lemma KeptHeadAndRest(a: seq<byte>, b: seq<byte>, c: seq<byte>, op: nat, oend: nat)
    requires Kept(a, b, op, op + 8) && op + 8 <= oend && Kept(b, c, op + 8, oend)
    ensures Kept(a, c, op, oend)
  {
    KeptWider(a, b, op, op + 8, op, oend);
    KeptTwice(a, b, c, op, oend, op + 8, oend);
  }

  method BlockCopy(dst: array<byte>, op0: nat, offset: nat, length: nat, oend: nat) returns (refused: bool)
    requires offset <= op0 && length >= MINMATCH && oend <= dst.Length
    requires op0 + 8 <= oend
    modifies dst
    ensures Kept(old(dst[..]), dst[..], op0, oend)
    ensures refused <==> op0 + length > oend - LASTLITERALS
    ensures !refused ==> dst[..op0 + length] == Extend(old(dst[..op0]), offset, length)
  {
    ghost var a := dst[..];
    ghost var r := Ideal(a, op0, offset);
    var m := CopyHead(dst, op0, op0 - offset, offset, r);
    ghost var b := dst[..];
    refused := FinishMatch(dst, op0 + 8, m, op0 + length, length, oend, r);
    KeptHeadAndRest(a, b, dst[..], op0, oend);
    if !refused {
      IdealPrefix(a, dst[..], op0, offset, length);
    }
  }

  method FinishMatch(dst: array<byte>, op: nat, m: nat, cpy: nat, length: nat, oend: nat, ghost r: seq<byte>)
    returns (refused: bool)
    requires op >= 8 && cpy == op - 8 + length && length >= MINMATCH
    requires op <= oend <= dst.Length
    requires m + 8 <= op && Agrees(dst[..], r, op) && Repeats(r, op, op - m)
    modifies dst
    ensures refused <==> cpy > oend - LASTLITERALS
    ensures !refused ==> Agrees(dst[..], r, cpy)
    ensures Kept(old(dst[..]), dst[..], op, oend)
  {
    if cpy > oend - MATCH_SAFEGUARD_DISTANCE {
      if cpy > oend - LASTLITERALS {
        return true;
      }
      EndMatch(dst, op, m, cpy, oend, r);
      if cpy < op {
        AgreesLess(dst[..], r, op, cpy);
      }
    } else {
      MiddleMatch(dst, op, m, cpy, length, oend, r);
    }
    refused := false;
  }

  /** A match that starts in the external dictionary, as far as there is room. */
  method CopyFromDict(j: Job, op0: nat, offset: nat, length: nat) returns (out: Copy)
    requires j.Valid() && j.start <= op0 <= j.oend && j.mode == UsingExtDict
    requires op0 - j.lowPrefix < offset <= op0 - j.lowPrefix + |j.dict|
    modifies j.dst
    ensures Kept(old(j.dst[..]), j.dst[..], op0, j.oend)
    ensures out.Refused? ==> !j.partial && op0 + length > j.oend - LASTLITERALS
    ensures !out.Refused? ==>
      && out.Go? && op0 <= out.op <= j.oend
      && Copied(j, old(j.dst[..]), op0, j.dst[..], out.op, offset, length)
  {
    ghost var a := j.dst[..];
    var len := length;
    if op0 + len > j.oend - LASTLITERALS {
      if j.partial {
        len := Min(len, j.oend - op0);
      } else {
        return Refused;
      }
    }
    var op := ExtDictMatch(j, op0, offset, len);
    KeptWider(a, j.dst[..], op0, op, op0, j.oend);
    out := Go(op);
  }

  /** From `safe_match_copy` to the end of the iteration. */
  method CopyMatch(j: Job, op0: nat, offset: nat, length: nat) returns (out: Copy)
    requires j.Valid() && j.start <= op0 <= j.oend && offset <= DISTANCE_MAX && length >= MINMATCH
    requires !j.partial ==> op0 + MATCH_SAFEGUARD_DISTANCE <= j.oend
    modifies j.dst
    ensures Kept(old(j.dst[..]), j.dst[..], op0, j.oend)
    ensures out.Refused? ==> offset > |j.Window(old(j.dst[..]), op0)|
                             || (!j.partial && op0 + length > j.oend - LASTLITERALS)
    ensures !out.Refused? ==>
      && op0 <= out.op <= j.oend
      && Copied(j, old(j.dst[..]), op0, j.dst[..], out.op, offset, length)
    ensures out.Stop? ==> j.partial && out.op == j.oend
  {
    ghost var a := j.dst[..];
    var m, oend := op0 - offset, j.oend;
    var checkOffset := |j.dict| < 65536;
    if checkOffset && m + |j.dict| < j.lowPrefix {
      return Refused;
    }
    if j.mode == UsingExtDict && m < j.lowPrefix {
      out := CopyFromDict(j, op0, offset, length);
      return;
    }
    if j.partial && op0 + length > oend - MATCH_SAFEGUARD_DISTANCE {
      var op := PartialMatch(j, op0, offset, length);
      KeptWider(a, j.dst[..], op0, op, op0, oend);
      return if op == oend then Stop(op) else Go(op);
    }
    out := BlockMatch(j, op0, offset, length);
  }
}
