/** Reading a length and copying one run of literals. */
module LiteralStage {
  import opened Bytes
  import opened BlockFormat
  import opened WideCopy
  import opened DecoderState

  /** read_variable_length: a run that ends beyond `ilimit` is an error. */
  method ReadVariableLength(src: seq<byte>, ip0: nat, ilimit: int, initialCheck: bool)
    returns (ok: bool, length: nat, ip: nat)
    requires ilimit < |src| && (ip0 < |src| || initialCheck)
    ensures ok ==> ReadRun(src, ip0) == Length(length, ip) && ip <= ilimit
    ensures !ok ==> ReadRun(src, ip0).NoLength? || ReadRun(src, ip0).next > ilimit
    ensures ip0 <= ip
  {
    ip, length := ip0, 0;
    if initialCheck && ip >= ilimit {
      return false, length, ip;
    }
    var s := src[ip];
    ip := ip + 1;
    length := length + s;
    if ip > ilimit {
      return false, length, ip;
    }
    if s != 255 {
      return true, length, ip;
    }
    while s == 255
      invariant ip0 < ip <= |src| && (s == 255 ==> ip <= ilimit)
      invariant ReadRun(src, ip0) == (if s == 255 then AddRun(length, ReadRun(src, ip)) else Length(length, ip))
      invariant s != 255 ==> ip <= ilimit
      decreases s == 255, |src| - ip
    {
      s := src[ip];
      ip := ip + 1;
      length := length + s;
      if ip > ilimit {
        return false, length, ip;
      }
    }
    ok := true;
  }

  ghost function AddRun(n: nat, r: Length): Length {
    match r
    case NoLength => NoLength
    case Length(m, j) => Length(n + m, j)
  }

  /** The literals that end the decode: all of them, or, in a partial decode, as
      many as there is input and room for. */
  ghost predicate Ended(j: Job, a: seq<byte>, ip: nat, op: nat, length: nat, b: seq<byte>, op2: nat)
    requires j.Valid() && j.start <= op <= op2 <= j.oend && |a| == |b| == j.dst.Length
  {
    var n := op2 - op;
    && n <= length && ip + n <= |j.src|
    && j.Window(b, op2) == j.Window(a, op) + j.src[ip..ip + n]
    && (if j.partial then op2 == j.oend || ip + n + 2 >= |j.src| else n == length && ip + length == |j.src|)
    && (j.partial ==> n == Min(length, Min(|j.src| - ip, j.oend - op)))
  }

  datatype Literals = More(ip: nat, op: nat, offset: nat) | End(op: nat) | Wrong(ip: nat)

  /** From `safe_literal_copy` to the offset: copies `length` literals, fewer if a
      partial decode runs out of input or of room. */
  method CopyLiterals(j: Job, ip0: nat, op0: nat, length0: nat) returns (out: Literals)
    requires j.Valid() && j.start <= op0 <= j.oend && ip0 <= |j.src|
    modifies j.dst
    ensures Kept(old(j.dst[..]), j.dst[..], op0, j.oend)
    ensures out.More? ==>
      && ip0 + length0 + 2 == out.ip < |j.src| && op0 + length0 == out.op <= j.oend
      && (if j.partial then out.op < j.oend else out.op + MFLIMIT <= j.oend)
      && out.offset == LE16(j.src[out.ip - 2], j.src[out.ip - 1])
      && j.Window(j.dst[..], out.op) == j.Window(old(j.dst[..]), op0) + j.src[ip0..ip0 + length0]
    ensures out.End? ==>
      && op0 <= out.op <= j.oend
      && Ended(j, old(j.dst[..]), ip0, op0, length0, j.dst[..], out.op)
    ensures out.Wrong? ==>
      && !j.partial && (ip0 + length0 != |j.src| || op0 + length0 > j.oend)
      && (op0 + length0 + MFLIMIT > j.oend || ip0 + length0 + 8 > |j.src|)
  {
    var ip, op, length, iend := ip0, op0, length0, |j.src|;
    var cpy := op + length;
    if cpy > j.oend - MFLIMIT || ip + length > iend - (2 + 1 + LASTLITERALS) {
      var refused;
      refused, length, cpy := LiteralsNearEnd(j, ip, op, length);
      if refused {
        return Wrong(ip);
      }
      ip := ip + length;
      op := op + length;
      if !j.partial || cpy == j.oend || ip >= iend - 2 {
        return End(op);
      }
    } else {
      WildLiterals(j, ip, op, length);
      ip, op := ip + length, cpy;
    }
    var offset := LE16(j.src[ip], j.src[ip + 1]);
    out := More(ip + 2, op, offset);
  }

  /** Close to the end of block or output: as many literals as there are and fit. */
  method LiteralsNearEnd(j: Job, ip: nat, op: nat, length0: nat) returns (refused: bool, length: nat, cpy: nat)
    requires j.Valid() && j.start <= op <= j.oend && ip <= |j.src|
    modifies j.dst
    ensures Kept(old(j.dst[..]), j.dst[..], op, j.oend)
    ensures refused ==> !j.partial && (ip + length0 != |j.src| || op + length0 > j.oend)
    ensures !refused ==>
      && length <= length0 && ip + length <= |j.src| && cpy == op + length <= j.oend
      && j.Window(j.dst[..], cpy) == j.Window(old(j.dst[..]), op) + j.src[ip..ip + length]
      && (if !j.partial || cpy == j.oend || ip + length + 2 >= |j.src|
          then Ended(j, old(j.dst[..]), ip, op, length0, j.dst[..], cpy) else length == length0)
  {
    refused, length, cpy := LiteralsThere(j, ip, op, length0);
    if !refused {
      LastLiterals(j, ip, op, length);
    }
  }

  /** How many literals that is. */
  method LiteralsThere(j: Job, ip: nat, op: nat, length0: nat) returns (refused: bool, length: nat, cpy: nat)
    requires j.Valid() && j.start <= op <= j.oend && ip <= |j.src|
    ensures refused <==> !j.partial && (ip + length0 != |j.src| || op + length0 > j.oend)
    ensures !refused ==>
      && cpy == op + length
      && length == if j.partial then Min(length0, Min(|j.src| - ip, j.oend - op)) else length0
  {
    length := length0;
    cpy := op + length;
    if j.partial {
      if ip + length > |j.src| {
        length := |j.src| - ip;
        cpy := op + length;
      }
      if cpy > j.oend {
        cpy := j.oend;
        length := j.oend - op;
      }
    } else {
      if ip + length != |j.src| || cpy > j.oend {
        return true, length, cpy;
      }
    }
    refused := false;
  }

  /** LZ4_memmove of exactly `length` literals. */
  method LastLiterals(j: Job, ip: nat, op: nat, length: nat)
    requires j.Valid() && j.start <= op && op + length <= j.oend && ip + length <= |j.src|
    modifies j.dst
    ensures Kept(old(j.dst[..]), j.dst[..], op, j.oend)
    ensures j.Window(j.dst[..], op + length) == j.Window(old(j.dst[..]), op) + j.src[ip..ip + length]
  {
    ghost var a := j.dst[..];
    CopyIn(j.dst, op, j.src, ip, length);
    BlitPrefix(a, op, j.src[ip..ip + length]);
    CopiedLiterals(j, a, j.dst[..], ip, op, length, op + length);
  }

  /** The wild copy of literals that are far enough from both ends. */
  method WildLiterals(j: Job, ip: nat, op: nat, length: nat)
    requires j.Valid() && j.start <= op && op + length + 8 <= j.oend && ip + length + 8 <= |j.src|
    modifies j.dst
    ensures Kept(old(j.dst[..]), j.dst[..], op, j.oend)
    ensures j.Window(j.dst[..], op + length) == j.Window(old(j.dst[..]), op) + j.src[ip..ip + length]
  {
    ghost var a := j.dst[..];
    WildCopy8In(j.dst, op, j.src, ip, op + length);
    CopiedLiterals(j, a, j.dst[..], ip, op, length, WildEnd(op, op + length, 8));
  }

  /** The same 32 bytes at a time, in the fast loop. */
  method WildLiterals32(j: Job, ip: nat, op: nat, length: nat)
    requires j.Valid() && j.start <= op && op + length + 32 <= j.oend && ip + length + 32 <= |j.src|
    modifies j.dst
    ensures Kept(old(j.dst[..]), j.dst[..], op, j.oend)
    ensures j.Window(j.dst[..], op + length) == j.Window(old(j.dst[..]), op) + j.src[ip..ip + length]
  {
    ghost var a := j.dst[..];
    WildCopy32In(j.dst, op, j.src, ip, op + length);
    CopiedLiterals(j, a, j.dst[..], ip, op, length, WildEnd(op, op + length, 32));
  }

  /** At most 14 literals, copied as 16 bytes. */
  method ShortLiterals(j: Job, ip: nat, op: nat, length: nat)
    requires j.Valid() && j.start <= op && op + 16 <= j.oend && ip + 16 <= |j.src| && length < RUN_MASK
    modifies j.dst
    ensures Kept(old(j.dst[..]), j.dst[..], op, j.oend)
    ensures j.Window(j.dst[..], op + length) == j.Window(old(j.dst[..]), op) + j.src[ip..ip + length]
  {
    ghost var a := j.dst[..];
    CopyIn(j.dst, op, j.src, ip, 16);
    BlitPart(a, j.dst[..], op, j.src[ip..ip + 16], length);
    SliceOfSlice(j.src, ip, ip + 16, length);
    CopiedLiterals(j, a, j.dst[..], ip, op, length, op + 16);
  }

  lemma CopiedLiterals(j: Job, a: seq<byte>, b: seq<byte>, ip: nat, op: nat, length: nat, hi: nat)
    requires j.Valid() && j.start <= op && op + length <= hi <= j.oend && ip + length <= |j.src|
    requires |a| == |b| == j.dst.Length
    requires b[..op + length] == a[..op] + j.src[ip..ip + length] && b[hi..] == a[hi..]
    ensures Kept(a, b, op, j.oend)
    ensures j.Window(b, op + length) == j.Window(a, op) + j.src[ip..ip + length]
  {
    WindowAppend(j, a, b, op, j.src[ip..ip + length]);
    assert b[..op] == b[..op + length][..op];
    assert b[j.oend..] == b[hi..][j.oend - hi..] == a[j.oend..];
  }
}
