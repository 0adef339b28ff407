/** Writing one sequence into the output: lengths as runs of 255, literals by wild
    copy, and the token, whose low half is added once the match length is known. */
module SequenceWriter {
  import opened Bytes
  import opened BlockFormat
  import opened BlockEncoding
  import opened WideCopy

  /** A literal length beyond the token. */
  method WriteRun(dst: array<byte>, op0: nat, len0: nat) returns (op: nat)
    requires op0 + RunSize(len0) <= dst.Length
    modifies dst
    ensures op == op0 + RunSize(len0)
    ensures dst[..op] == old(dst[..op0]) + RunBytes(len0)
  {
    op := op0;
    var len := len0;
    while len >= 255
      invariant op0 <= op && op + RunSize(len) == op0 + RunSize(len0)
      invariant dst[..op] + RunBytes(len) == old(dst[..op0]) + RunBytes(len0)
    {
      ghost var a := dst[..op];
      dst[op] := 255;
      assert dst[..op + 1] == a + [255];
      assert a + [255] + RunBytes(len - 255) == a + RunBytes(len);
      op, len := op + 1, len - 255;
    }
    ghost var a := dst[..op];
    dst[op] := len;
    op := op + 1;
    assert dst[..op] == a + [len];
  }

  const FF: seq<byte> := [255, 255, 255, 255]

  /** LZ4_write32(op, 0xFFFFFFFF) */
  method WriteFF(dst: array<byte>, op: nat)
    requires op + 4 <= dst.Length
    modifies dst
    ensures dst[..op] == old(dst[..op]) && dst[op..op + 4] == FF
  {
    dst[op], dst[op + 1], dst[op + 2], dst[op + 3] := 255, 255, 255, 255;
  }

  lemma RunOfFour(m: nat)
    requires m >= 1020
    ensures RunBytes(m) == FF + RunBytes(m - 1020) && RunSize(m) == 4 + RunSize(m - 1020)
  {
    assert RunBytes(m) == [255] + ([255] + ([255] + ([255] + RunBytes(m - 1020)))) by {
      assert RunBytes(m - 255) == [255] + RunBytes(m - 510);
      assert RunBytes(m - 765) == [255] + RunBytes(m - 1020);
    }
  }

  lemma RunOfLess(m: nat)
    requires m < 1020
    ensures RunBytes(m) == FF[..m / 255] + [m % 255] && RunSize(m) == m / 255 + 1
  {
    if m >= 255 {
      assert RunBytes(m) == [255] + RunBytes(m - 255);
      if m >= 510 {
        assert RunBytes(m - 255) == [255] + RunBytes(m - 510);
      }
    }
  }

  /** A match length beyond the token, four bytes of 255 at a time: up to three bytes
      after it are overwritten as well. */
  method WriteMatchRun(dst: array<byte>, op0: nat, len0: nat) returns (op: nat)
    requires op0 + RunSize(len0) + 3 <= dst.Length
    modifies dst
    ensures op == op0 + RunSize(len0)
    ensures dst[..op] == old(dst[..op0]) + RunBytes(len0)
  {
    op := op0;
    var matchCode := len0;
    WriteFF(dst, op);
    while matchCode >= 4 * 255
      invariant op0 <= op && op + RunSize(matchCode) == op0 + RunSize(len0)
      invariant dst[..op] + RunBytes(matchCode) == old(dst[..op0]) + RunBytes(len0)
      invariant dst[op..op + 4] == FF
    {
      ghost var a := dst[..op];
      RunOfFour(matchCode);
      assert dst[..op + 4] == a + FF;
      assert a + FF + RunBytes(matchCode - 1020) == a + RunBytes(matchCode);
      op := op + 4;
      WriteFF(dst, op);
      matchCode := matchCode - 4 * 255;
    }
    op := CloseMatchRun(dst, op, matchCode);
  }

  /** The last bytes of 255 are there already. */
  method CloseMatchRun(dst: array<byte>, op0: nat, matchCode: nat) returns (op: nat)
    requires op0 + 4 <= dst.Length && dst[op0..op0 + 4] == FF && matchCode < 4 * 255
    modifies dst
    ensures op == op0 + RunSize(matchCode) <= dst.Length
    ensures dst[..op] == old(dst[..op0]) + RunBytes(matchCode)
  {
    RunOfLess(matchCode);
    var k := matchCode / 255;
    op := op0 + k;
    assert dst[..op] == dst[..op0] + FF[..k];
    dst[op] := matchCode % 255;
    op := op + 1;
    assert dst[..op] == old(dst[..op0]) + (FF[..k] + [matchCode % 255]);
  }

  /** Encode and copy literals, behind a token that has no match length yet. */
  method WriteLiterals(dst: array<byte>, token: nat, mem: seq<byte>, anchor: nat, litLength: nat) returns (op: nat)
    requires token + 1 + LengthSize(litLength) + litLength + (if litLength == 0 then 8 else 7) <= dst.Length
    requires anchor + litLength + 8 <= |mem|
    modifies dst
    ensures op == token + 1 + LengthSize(litLength) + litLength
    ensures dst[..op] == old(dst[..token]) + Opening(mem[anchor..anchor + litLength])
  {
    ghost var before, lits := dst[..token], mem[anchor..anchor + litLength];
    op := WriteLiteralLength(dst, token, litLength);
    WildCopy8In(dst, op, mem, anchor, op + litLength);
    op := op + litLength;
    OpeningWritten(before, lits, dst[..op]);
  }

  lemma OpeningWritten(before: seq<byte>, lits: seq<byte>, after: seq<byte>)
    requires after == before + ([Token(|lits|)] + LengthBytes(|lits|)) + lits
    ensures after == before + Opening(lits)
  {
  }

  method WriteLiteralLength(dst: array<byte>, token: nat, litLength: nat) returns (op: nat)
    requires token + 1 + LengthSize(litLength) <= dst.Length
    modifies dst
    ensures op == token + 1 + LengthSize(litLength)
    ensures dst[..op] == old(dst[..token]) + ([Token(litLength)] + LengthBytes(litLength))
  {
    op := token + 1;
    if litLength >= RUN_MASK {
      dst[token] := RUN_MASK * 16;
      assert dst[..op] == old(dst[..token]) + [Token(litLength)];
      op := WriteRun(dst, op, litLength - RUN_MASK);
    } else {
      dst[token] := litLength * 16;
    }
    assert dst[..op] == old(dst[..token]) + ([Token(litLength)] + LengthBytes(litLength));
  }

  /** LZ4_writeLE16 */
  method WriteOffset(dst: array<byte>, op: nat, offset: nat)
    requires op + 2 <= dst.Length && offset <= DISTANCE_MAX
    modifies dst
    ensures dst[..op + 2] == old(dst[..op]) + [offset % 256, offset / 256]
  {
    dst[op], dst[op + 1] := offset % 256, offset / 256;
  }

  /** Encode MatchLength: the length goes into the token and behind the offset. */
  method WriteMatchCode(dst: array<byte>, token: nat, op0: nat, matchCode: nat, ghost a: seq<byte>) returns (op: nat)
    requires token < op0 <= dst.Length && a == dst[..op0] && a[token] % 16 == 0
    requires matchCode >= ML_MASK ==> op0 + LengthSize(matchCode) + 3 <= dst.Length
    modifies dst
    ensures op == op0 + LengthSize(matchCode) && op <= dst.Length
    ensures dst[..op] == a[token := a[token] + Nibble(matchCode)] + LengthBytes(matchCode)
  {
    op := op0;
    dst[token] := dst[token] + Nibble(matchCode);
    assert dst[..op0] == a[token := a[token] + Nibble(matchCode)];
    if matchCode >= ML_MASK {
      op := WriteMatchRun(dst, op, matchCode - ML_MASK);
    }
  }

  /** Token, literals, offset and match length together are the sequence. */
  lemma {:induction false} SequenceBytes(e: seq<byte>, lits: seq<byte>, off: nat, code: nat, d: seq<byte>, b: seq<byte>)
    requires off <= DISTANCE_MAX
    requires d == e + Opening(lits) + [off % 256, off / 256]
    requires d[|e|] % 16 == 0 && b == d[|e| := d[|e|] + Nibble(code)] + LengthBytes(code)
    ensures b == e + (Head(lits, code) + Tail(off, code))
  {
    Regroup(e, Token(|lits|), Token(|lits|) + Nibble(code), LengthBytes(|lits|), lits,
            [off % 256, off / 256], LengthBytes(code));
  }

  lemma Regroup(e: seq<byte>, x: byte, y: byte, n: seq<byte>, l: seq<byte>, o: seq<byte>, c: seq<byte>)
    ensures (e + ([x] + n + l) + o)[|e|] == x
    ensures (e + ([x] + n + l) + o)[|e| := y] + c == e + (([y] + n + l) + (o + c))
  {
    assert e + ([x] + n + l) + o == e + [x] + (n + l + o);
    assert (e + [x] + (n + l + o))[|e| := y] == e + [y] + (n + l + o);
    assert e + [y] + (n + l + o) + c == e + (([y] + n + l) + (o + c));
  }

  /** The last run of literals. */
  method WriteLastRun(dst: array<byte>, op0: nat, mem: seq<byte>, anchor: nat, lastRun: nat) returns (op: nat)
    requires op0 + 1 + LengthSize(lastRun) + lastRun <= dst.Length && anchor + lastRun <= |mem|
    modifies dst
    ensures op == op0 + 1 + LengthSize(lastRun) + lastRun
    ensures dst[..op] == old(dst[..op0]) + Opening(mem[anchor..anchor + lastRun])
  {
    op := WriteLiteralLength(dst, op0, lastRun);
    ghost var a := dst[..];
    CopyIn(dst, op, mem, anchor, lastRun);
    BlitPrefix(a, op, mem[anchor..anchor + lastRun]);
    op := op + lastRun;
    assert dst[..op] == old(dst[..op0])
           + ([Token(lastRun)] + LengthBytes(lastRun) + mem[anchor..anchor + lastRun]);
  }
}
