/** The decoding entry points: whole runs of the two loops. */
module Decompress {
  import opened Bytes
  import opened BlockFormat
  import opened PartialFormat
  import opened PartialBlocks
  import opened DecoderState
  import opened Decoder

  /** A full decode is at token `ip` with `full` decoded: the rest comes to what the
      whole comes to. */
  ghost predicate WholeOnTrack(j: Job, h: seq<byte>, ip: nat, full: seq<byte>) {
    && DecodeFrom(j.src, ip, full) == Decode(j.src, h)
    && (WellFormedBlock(j.src, h) ==> WellFormedFrom(j.src, ip, full, |Decode(j.src, h).value|))
  }

  /** A partial decode is. To one that is not strict, a full output was the end. */
  ghost predicate PartOnTrack(j: Job, h: seq<byte>, ip: nat, full: seq<byte>)
    requires j.Valid() && |h| <= j.Room() && |full| <= j.Room()
  {
    var s, l := PartialFrom(j.src, 0, h, j.Room(), true), PartialFrom(j.src, 0, h, j.Room(), false);
    && (s.Unsettled? || s == PartialFrom(j.src, ip, full, j.Room(), true))
    && (l.Unsettled? || l == PartialFrom(j.src, ip, full, j.Room(), false) || (l == Output(full) && |full| == j.Room()))
  }

  ghost predicate OnTrack(j: Job, h: seq<byte>, ip: nat, full: seq<byte>)
    requires j.Valid()
  {
    && ip < |j.src| && |h| <= j.Room() && |full| <= j.Room()
    && (if j.partial then PartOnTrack(j, h, ip, full) else WholeOnTrack(j, h, ip, full))
  }

  /** The same, with the output in step. */
  ghost predicate InStep(j: Job, h: seq<byte>, ip: nat, full: seq<byte>, a: seq<byte>, op: nat)
    requires j.Valid() && |a| == j.dst.Length
  {
    && OnTrack(j, h, ip, full)
    && j.start <= op <= j.oend
    && j.Window(a, op) == full
  }

  /** What the run must end with. */
  ghost predicate WholeFinished(j: Job, h: seq<byte>, a: seq<byte>, out: Outcome)
    requires j.Valid() && |a| == j.dst.Length
  {
    match out
    case Done(op) => j.start <= op <= j.oend && Decode(j.src, h) == Some(j.Window(a, op))
    case Fail(_) => WellFormedBlock(j.src, h) ==> !j.Fits(|Decode(j.src, h).value|)
    case _ => false
  }

  ghost predicate PartFinished(j: Job, h: seq<byte>, a: seq<byte>, out: Outcome)
    requires j.Valid() && |a| == j.dst.Length && |h| <= j.Room()
  {
    var s, l := PartialFrom(j.src, 0, h, j.Room(), true), PartialFrom(j.src, 0, h, j.Room(), false);
    match out
    case Done(op) => j.start <= op <= j.oend && (l.Unsettled? || l == Output(j.Window(a, op)))
    case Fail(_) => !s.Output?
    case _ => false
  }

  ghost predicate Finished(j: Job, h: seq<byte>, a: seq<byte>, out: Outcome)
    requires j.Valid() && |a| == j.dst.Length && |h| <= j.Room()
  {
    if j.partial then PartFinished(j, h, a, out) else WholeFinished(j, h, a, out)
  }

  /** The goal of the iteration at token `ip`. */
  ghost function GoalAt(j: Job, ip: nat, full: seq<byte>): (g: Goal)
    requires j.Valid() && |full| <= j.Room()
    ensures AtToken(j, g, ip)
  {
    Goal(ParseAt(j.src, ip), StepAt(j.src, ip, full, j.Room()), full)
  }

  /** One good iteration keeps the run on track or ends it well. */
  lemma {:induction false} AdvanceWhole(j: Job, h: seq<byte>, ip: nat, full: seq<byte>, b: seq<byte>, out: Outcome)
    requires j.Valid() && |b| == j.dst.Length && WholeOnTrack(j, h, ip, full)
    requires WholeGood(j, Goal(ParseAt(j.src, ip), Reject, full), b, out)
    ensures out.Next? ==> WholeOnTrack(j, h, out.ip, j.Window(b, out.op))
    ensures out.Done? || out.Fail? ==> WholeFinished(j, h, b, out)
  {
    OneSequence(j.src, ip, full, if Decode(j.src, h).Some? then |Decode(j.src, h).value| else 0);
    if out.Fail? && WellFormedBlock(j.src, h) && j.Fits(|Decode(j.src, h).value|) {
      RejectedIsIllFormed(j, ip, full, |Decode(j.src, h).value|);
    }
  }

  lemma {:induction false} AdvancePart(j: Job, h: seq<byte>, ip: nat, full: seq<byte>, b: seq<byte>, out: Outcome)
    requires j.Valid() && |b| == j.dst.Length && |h| <= j.Room() && |full| <= j.Room() && PartOnTrack(j, h, ip, full)
    requires PartGood(j, GoalAt(j, ip, full), b, out)
    ensures out.Next? ==> PartOnTrack(j, h, out.ip, j.Window(b, out.op))
    ensures out.Done? || out.Fail? ==> PartFinished(j, h, b, out)
  {
    OneStep(j.src, ip, full, j.Room(), true);
    OneStep(j.src, ip, full, j.Room(), false);
    if |full| == j.Room() {
      FullOutput(j.src, ip, full, j.Room());
    }
  }

  lemma {:induction false} Advance(j: Job, h: seq<byte>, ip: nat, full: seq<byte>, b: seq<byte>, out: Outcome)
    requires j.Valid() && |b| == j.dst.Length && OnTrack(j, h, ip, full)
    requires Good(j, GoalAt(j, ip, full), b, out)
    ensures out.Next? ==> ip < out.ip && InStep(j, h, out.ip, j.Window(b, out.op), b, out.op)
    ensures out.Done? || out.Fail? ==> Finished(j, h, b, out)
  {
    if j.partial {
      AdvancePart(j, h, ip, full, b, out);
    } else {
      AdvanceWhole(j, h, ip, full, b, out);
    }
  }

  /** The fast loop. The sequence at `i0` is the one it leaves half decoded. */
  method FastLoop(j: Job, ghost h: seq<byte>)
    returns (out: Outcome, ghost i0: nat, ghost full: seq<byte>)
    requires j.Valid() && j.start + FASTLOOP_SAFE_DISTANCE <= j.oend
    requires InStep(j, h, 0, h, j.dst[..], j.start)
    modifies j.dst
    ensures Kept(old(j.dst[..]), j.dst[..], j.start, j.oend)
    ensures !out.Next? && !out.Done? && OnTrack(j, h, i0, full)
    ensures out.Fail? ==> Finished(j, h, j.dst[..], out)
    ensures out.ToLiterals? ==>
              AtLiterals(j, GoalAt(j, i0, full), j.dst[..], out.token, out.ip, out.op, out.length)
    ensures out.ToMatch? ==>
              AtMatch(j, GoalAt(j, i0, full), j.dst[..], out.ip, out.op, out.offset, out.length)
  {
    var ip: nat, op: nat := 0, j.start;
    i0, full := 0, h;
    while true
      invariant InStep(j, h, ip, full, j.dst[..], op) && op + FASTLOOP_SAFE_DISTANCE <= j.oend
      invariant Kept(old(j.dst[..]), j.dst[..], j.start, j.oend)
      decreases |j.src| - ip
    {
      i0 := ip;
      ghost var b := j.dst[..];
      out := FastStep(j, ip, op, GoalAt(j, ip, full));
      KeptTwice(old(j.dst[..]), b, j.dst[..], j.start, j.oend, op, j.oend);
      Advance(j, h, ip, full, j.dst[..], out);
      if !out.Next? {
        return;
      }
      ip, op := out.ip, out.op;
      full := j.Window(j.dst[..], op);
    }
  }

  /** The safe loop, from token `ip` to the end of the run. */
  method SafeLoop(j: Job, ip0: nat, op0: nat, ghost h: seq<byte>, ghost full0: seq<byte>) returns (out: Outcome)
    requires j.Valid() && InStep(j, h, ip0, full0, j.dst[..], op0)
    modifies j.dst
    ensures Kept(old(j.dst[..]), j.dst[..], j.start, j.oend)
    ensures Finished(j, h, j.dst[..], out)
  {
    var ip: nat, op: nat := ip0, op0;
    ghost var full := full0;
    while true
      invariant InStep(j, h, ip, full, j.dst[..], op)
      invariant Kept(old(j.dst[..]), j.dst[..], j.start, j.oend)
      decreases |j.src| - ip
    {
      ghost var b := j.dst[..];
      out := SafeStep(j, ip, op, GoalAt(j, ip, full));
      KeptTwice(old(j.dst[..]), b, j.dst[..], j.start, j.oend, op, j.oend);
      Advance(j, h, ip, full, j.dst[..], out);
      if !out.Next? {
        return;
      }
      ip, op := out.ip, out.op;
      full := j.Window(j.dst[..], op);
    }
  }

  /** Both loops: the fast one hands over in the middle of a sequence, unless
      there is too little room to begin with. */
  method Loops(j: Job, ghost h: seq<byte>) returns (out: Outcome)
    requires j.Valid() && InStep(j, h, 0, h, j.dst[..], j.start)
    modifies j.dst
    ensures Kept(old(j.dst[..]), j.dst[..], j.start, j.oend)
    ensures Finished(j, h, j.dst[..], out)
  {
    if j.oend - j.start < FASTLOOP_SAFE_DISTANCE {
      out := SafeLoop(j, 0, j.start, h, h);
      return;
    }
    ghost var i0, full;
    out, i0, full := FastLoop(j, h);
    ghost var b := j.dst[..];
    if out.Fail? {
      return;
    }
    if out.ToLiterals? {
      out := LiteralPart(j, out.token, out.ip, out.op, out.length, GoalAt(j, i0, full));
    } else {
      out := MatchPart(j, out.ip, out.op, out.offset, out.length, GoalAt(j, i0, full));
    }
    ghost var c := j.dst[..];
    KeptWhole(old(j.dst[..]), b, c, j);
    Advance(j, h, i0, full, c, out);
    if out.Next? {
      out := SafeLoop(j, out.ip, out.op, h, j.Window(c, out.op));
      KeptWhole(old(j.dst[..]), c, j.dst[..], j);
    }
  }

  lemma KeptWhole(a: seq<byte>, b: seq<byte>, c: seq<byte>, j: Job)
    requires j.Valid() && Kept(a, b, j.start, j.oend)
    requires exists lo :: j.start <= lo <= j.oend && Kept(b, c, lo, j.oend)
    ensures Kept(a, c, j.start, j.oend)
  {
    var lo :| j.start <= lo <= j.oend && Kept(b, c, lo, j.oend);
    KeptTwice(a, b, c, j.start, j.oend, lo, j.oend);
  }

  /** The result of a call: what it means for a full decode, and for a partial one. */
  ghost predicate Decoded(j: Job, h: seq<byte>, b: seq<byte>, r: int)
    requires j.Valid() && |b| == j.dst.Length
  {
    && r <= j.oend - j.start
    && (if j.partial then DecodedPart(j, h, b, r) else DecodedWhole(j, h, b, r))
  }

  ghost predicate DecodedWhole(j: Job, h: seq<byte>, b: seq<byte>, r: int)
    requires j.Valid() && |b| == j.dst.Length && r <= j.oend - j.start
  {
    var d := Decode(j.src, h);
    && (r >= 0 ==> d == Some(j.Window(b, j.start + r)))
    && (WellFormedBlock(j.src, h) && j.Fits(|d.value|) && (j.start < j.oend || j.src == [0]) ==> r == |d.value| - |h|)
  }

  ghost predicate DecodedPart(j: Job, h: seq<byte>, b: seq<byte>, r: int)
    requires j.Valid() && |b| == j.dst.Length && r <= j.oend - j.start
  {
    var n := j.oend - j.start;
    var s, l := PartialDecode(j.src, h, n, true), PartialDecode(j.src, h, n, false);
    && (r >= 0 ==> l.Unsettled? || l == Output(j.Window(b, j.start + r)))
    && (s.Output? ==> r == |s.bytes| - |h|)
  }

  /** LZ4_decompress_generic */
  method DecompressGeneric(j: Job) returns (r: int)
    requires j.Valid()
    modifies j.dst
    ensures Kept(old(j.dst[..]), j.dst[..], j.start, j.oend)
    ensures Decoded(j, j.Window(old(j.dst[..]), j.start), j.dst[..], r)
  {
    ghost var a, h := j.dst[..], j.Window(j.dst[..], j.start);
    if j.oend - j.start == 0 {
      if j.partial {
        return 0;
      }
      DecodeOneByte(j.src, h);
      return if |j.src| == 1 && j.src[0] == 0 then 0 else -1;
    }
    if |j.src| == 0 {
      return -1;
    }
    var out := Loops(j, h);
    match out {
      case Done(op) =>
        r := op - j.start;
      case Fail(ip) =>
        r := -(ip as int) - 1;
    }
    FinishedDecoded(j, h, j.dst[..], out, r);
  }

  lemma {:induction false} FinishedDecoded(j: Job, h: seq<byte>, b: seq<byte>, out: Outcome, r: int)
    requires j.Valid() && |b| == j.dst.Length && j.start < j.oend && |h| == |j.Window(b, j.start)|
    requires Finished(j, h, b, out) && if out.Done? then r == out.op - j.start else r < 0
    ensures Decoded(j, h, b, r)
  {
    if j.partial && PartialFrom(j.src, 0, h, j.Room(), true).Output? {
      StrictIsLenient(j.src, 0, h, j.Room());
    }
  }

  lemma DecodeOneByte(s: seq<byte>, h: seq<byte>)
    ensures s == [0] ==> Decode(s, h) == Some(h)
  {
    OneSequence(s, 0, h, 0);
    if s == [0] {
      assert ParseAt(s, 0) == Last(1, 0);
      assert h + s[1..1] == h;
    }
  }

  // ---------------------------------------------------------------------
  // Entry points
  // ---------------------------------------------------------------------

  /** The result of decoding `src` on top of the history `h` into a buffer that
      holds `room` afterwards. A full decode returns the decoded size only if the
      block decodes to exactly these bytes, and does so for every well-formed
      block that fits. */
  ghost predicate Yields(src: seq<byte>, h: seq<byte>, partial: bool, room: seq<byte>, r: int) {
    r <= |room| && (if partial then YieldsPart(src, h, room, r) else YieldsWhole(src, h, room, r))
  }

  ghost predicate YieldsWhole(src: seq<byte>, h: seq<byte>, room: seq<byte>, r: int)
    requires r <= |room|
  {
    var d := Decode(src, h);
    && (r >= 0 ==> d == Some(h + room[..r]))
    && (WellFormedBlock(src, h) && |d.value| <= |h| + |room| && (room != [] || src == [0]) ==> r == |d.value| - |h|)
  }

  /** A partial decode yields what the first bytes of `src` come to, as many as fit. It may
      reject only what a strict reader rejects. */
  ghost predicate YieldsPart(src: seq<byte>, h: seq<byte>, room: seq<byte>, r: int)
    requires r <= |room|
  {
    var s, l := PartialDecode(src, h, |room|, true), PartialDecode(src, h, |room|, false);
    && (r >= 0 ==> l.Unsettled? || l == Output(h + room[..r]))
    && (s.Output? ==> r == |s.bytes| - |h|)
  }

  lemma {:induction false} DecodedYields(j: Job, h: seq<byte>, b: seq<byte>, r: int)
    requires j.Valid() && |b| == j.dst.Length && h == j.Window(b, j.start) && Decoded(j, h, b, r)
    ensures Yields(j.src, h, j.partial, b[j.start..j.oend], r)
  {
    if r >= 0 {
      SliceOfSlice(b, j.start, j.oend, r);
      WindowSplit(j, b, j.start + r);
      assert j.Window(b, j.start + r) == h + b[j.start..j.oend][..r];
    }
  }

  /** A history of 65535 bytes or more may be cut. */
  lemma {:induction false} YieldsFarHistory(src: seq<byte>, g: seq<byte>, h: seq<byte>, partial: bool, room: seq<byte>, r: int)
    requires Yields(src, g + h, partial, room, r) && |h| >= DISTANCE_MAX
    ensures Yields(src, h, partial, room, r)
  {
    if r >= 0 {
      assert g + h + room[..r] == g + (h + room[..r]);
    }
    if partial {
      PartialFarHistory(src, g, h, |room|, true);
      PartialFarHistory(src, g, h, |room|, false);
      var l := PartialDecode(src, h, |room|, false);
      if r >= 0 && l.Output? {
        Cancel(g, l.bytes, h + room[..r]);
      }
    } else {
      WellFormedBlockHistory(src, g, h);
      if r >= 0 {
        Cancel(g, Decode(src, h).value, h + room[..r]);
      }
    }
  }

  /** Where both readers agree, a partial decode yields just that. */
  lemma {:induction false} YieldsSettled(src: seq<byte>, h: seq<byte>, room: seq<byte>, r: int, x: seq<byte>)
    requires Yields(src, h, true, room, r) && h <= x && Settled(src, 0, h, |h| + |room|, x)
    ensures r == Min(|room|, |x| - |h|) && h + room[..r] == x[..|h| + r]
  {
    assert Cut(x, |h| + |room|) == x[..Min(|x|, |h| + |room|)];
  }

  /** A partial decode of a well-formed block: the longest prefix that fits. The source may
      go on behind the block, if the room is at most what the block decodes to. */
  lemma {:induction false} YieldsOfMore(b: seq<byte>, src: seq<byte>, h: seq<byte>, room: seq<byte>, r: int)
    requires WellFormedBlock(b, h) && b <= src && (src == b || |h| + |room| <= |Decode(b, h).value|)
    requires Yields(src, h, true, room, r)
    ensures var d := Decode(b, h).value;
            |h| <= |d| && r == Min(|room|, |d| - |h|) && h + room[..r] == d[..|h| + r]
  {
    var d := Decode(b, h).value;
    WholeOfMore(b, src, h, d, |h| + |room|);
    YieldsSettled(src, h, room, r, d);
  }

  /** A source that ends within a well-formed block: what comes out, if anything does, is a
      beginning of what the whole block decodes to. */
  lemma {:induction false} YieldsOfLess(b: seq<byte>, src: seq<byte>, h: seq<byte>, room: seq<byte>, r: int)
    requires WellFormedBlock(b, h) && src <= b && Yields(src, h, true, room, r) && r >= 0
    ensures h + room[..r] <= Decode(b, h).value
  {
    if room != [] {
      PartOfLess(b, src, 0, h, |Decode(b, h).value|, |h| + |room|);
    }
  }

  /** If it ends within the literals of a sequence, all that is there comes out: `x`, what the
      sequences in front of it decode to and the literals up to the end of the input. */
  lemma {:induction false} YieldsOfCut(b: seq<byte>, k: nat, t: nat, v: seq<byte>, lit: nat, ll: nat,
                                       src: seq<byte>, h: seq<byte>, x: seq<byte>, room: seq<byte>, r: int)
    requires Reaches(b, 0, h, t, v) && CutInside(b, k, t, lit, ll) && (t > 0 ==> t + LASTLITERALS - 1 <= k)
    requires src == b[..k] && x == v + b[lit..Min(k, lit + ll)] && Yields(src, h, true, room, r)
    ensures |h| <= |x| && r == Min(|room|, |x| - |h|) && h + room[..r] == x[..|h| + r]
  {
    WholeOfCut(b, k, src, 0, h, t, v, lit, ll, x, |h| + |room|);
    YieldsSettled(src, h, room, r, x);
  }

  lemma Cancel(g: seq<byte>, x: seq<byte>, y: seq<byte>)
    requires g + x == g + y
    ensures x == y
  {
    assert x == (g + x)[|g|..];
    assert y == (g + y)[|g|..];
  }

  /** The shared body of the entry points, with the parameters of one call. */
  method Run(src: seq<byte>, dst: array<byte>, start: nat, outputSize: int,
             partial: bool, mode: DictMode, lowPrefix: int, dict: seq<byte>)
    returns (r: int)
    requires start <= dst.Length && start + outputSize <= dst.Length
    requires Job(src, dst, start, start, partial, mode, lowPrefix, dict).Valid()
    modifies dst
    ensures outputSize < 0 ==> r == -1 && dst[..] == old(dst[..])
    ensures outputSize >= 0 ==>
      && Kept(old(dst[..]), dst[..], start, start + outputSize)
      && Yields(src, dict + old(dst[if mode == WithPrefix64k then 0 else lowPrefix..start]), partial,
                dst[start..start + outputSize], r)
  {
    if outputSize < 0 {
      return -1;
    }
    var j := Job(src, dst, start, start + outputSize, partial, mode, lowPrefix, dict);
    ghost var a := dst[..];
    r := DecompressGeneric(j);
    WindowPrefix(j, a, dst[..], start);
    DecodedYields(j, j.Window(a, start), dst[..], r);
    assert a[j.Low()..start] == old(dst[j.Low()..start]);
  }

  /** LZ4_decompress_safe */
  method DecompressSafe(src: seq<byte>, dst: array<byte>, start: nat, maxDecompressedSize: nat) returns (r: int)
    requires start + maxDecompressedSize <= dst.Length
    modifies dst
    ensures Kept(old(dst[..]), dst[..], start, start + maxDecompressedSize)
    ensures Yields(src, [], false, dst[start..start + maxDecompressedSize], r)
  {
    r := Run(src, dst, start, maxDecompressedSize, false, NoDict, start, []);
    assert [] + old(dst[start..start]) == [];
  }

  /** LZ4_decompress_safe_partial */
  method DecompressSafePartial(src: seq<byte>, dst: array<byte>, start: nat, targetOutputSize: nat, dstCapacity: nat)
    returns (r: int)
    requires start + dstCapacity <= dst.Length
    modifies dst
    ensures Kept(old(dst[..]), dst[..], start, start + dstCapacity)
    ensures Yields(src, [], true, dst[start..start + Min(targetOutputSize, dstCapacity)], r)
  {
    ghost var a := dst[..];
    var size := Min(targetOutputSize, dstCapacity);
    r := Run(src, dst, start, size, true, NoDict, start, []);
    assert [] + old(dst[start..start]) == [];
    KeptWider(a, dst[..], start, start + size, start, start + dstCapacity);
  }

  /** LZ4_decompress_safe_withPrefix64k and its partial variant: any stretch of at
      least 65535 bytes before the output is as good a history as all of it. */
  method DecompressWithPrefix64k(src: seq<byte>, dst: array<byte>, start: nat, size: nat, partial: bool, ghost low: nat)
    returns (r: int)
    requires start + size <= dst.Length && low + DISTANCE_MAX <= start
    modifies dst
    ensures Kept(old(dst[..]), dst[..], start, start + size)
    ensures Yields(src, old(dst[low..start]), partial, dst[start..start + size], r)
  {
    ghost var g, h := dst[..low], dst[low..start];
    assert [] + dst[0..start] == g + h;
    r := Run(src, dst, start, size, partial, WithPrefix64k, start - 65536, []);
    YieldsFarHistory(src, g, h, partial, dst[start..start + size], r);
  }

  /** LZ4_decompress_safe_withSmallPrefix and its partial variant. */
  method DecompressWithSmallPrefix(src: seq<byte>, dst: array<byte>, start: nat, size: nat, partial: bool, prefixSize: nat)
    returns (r: int)
    requires start + size <= dst.Length && prefixSize <= start
    modifies dst
    ensures Kept(old(dst[..]), dst[..], start, start + size)
    ensures Yields(src, old(dst[start - prefixSize..start]), partial, dst[start..start + size], r)
  {
    ghost var h := dst[start - prefixSize..start];
    r := Run(src, dst, start, size, partial, NoDict, start - prefixSize, []);
    assert [] + h == h;
  }

  /** LZ4_decompress_safe_forceExtDict, its partial variant, and, with a prefix as
      well, LZ4_decompress_safe_doubleDict. */
  method DecompressExtDict(src: seq<byte>, dst: array<byte>, start: nat, size: nat, partial: bool,
                           prefixSize: nat, dict: seq<byte>)
    returns (r: int)
    requires start + size <= dst.Length && prefixSize <= start
    modifies dst
    ensures Kept(old(dst[..]), dst[..], start, start + size)
    ensures Yields(src, dict + old(dst[start - prefixSize..start]), partial, dst[start..start + size], r)
  {
    r := Run(src, dst, start, size, partial, UsingExtDict, start - prefixSize, dict);
  }

  /** LZ4_decompress_safe_usingDict and LZ4_decompress_safe_partial_usingDict (with
      `size` the smaller of target and capacity). Where the dictionary lies decides
      which decoder runs, and makes no difference to what it yields. */
  method DecompressUsingDict(src: seq<byte>, dst: array<byte>, start: nat, size: nat, partial: bool,
                             dictBuf: array<byte>, dictStart: nat, dictSize: nat)
    returns (r: int)
    requires start + size <= dst.Length && dictStart + dictSize <= dictBuf.Length
    requires dictBuf == dst ==> dictStart + dictSize <= start || start + size <= dictStart
    modifies dst
    ensures Kept(old(dst[..]), dst[..], start, start + size)
    ensures Yields(src, old(dictBuf[dictStart..dictStart + dictSize]), partial, dst[start..start + size], r)
  {
    if dictSize == 0 {
      r := Run(src, dst, start, size, partial, NoDict, start, []);
      assert [] + old(dst[start..start]) == [] == old(dictBuf[dictStart..dictStart]);
    } else if dictBuf == dst && dictStart + dictSize == start {
      if dictSize >= 65536 - 1 {
        r := DecompressWithPrefix64k(src, dst, start, size, partial, dictStart);
      } else {
        r := DecompressWithSmallPrefix(src, dst, start, size, partial, dictSize);
      }
    } else {
      var dict := dictBuf[dictStart..dictStart + dictSize];
      r := DecompressExtDict(src, dst, start, size, partial, 0, dict);
      assert dict + old(dst[start - 0..start]) == dict;
    }
  }
}
