/** What one call of the block decoder works on, and what its state means in
    terms of the reference decoder. Pointers are indices: `ip` into the block,
    `op` into the array that holds the prefix and the output. */
module DecoderState {
  import opened Bytes
  import opened BlockFormat
  import opened PartialFormat

  const FASTLOOP_SAFE_DISTANCE := 64
  const MATCH_SAFEGUARD_DISTANCE := 12

  datatype DictMode = NoDict | WithPrefix64k | UsingExtDict

  /** The parameters that stay fixed during a call: the output goes to
      dst[start..oend]; the prefix ends at `start` and begins at `lowPrefix`. */
  datatype Job = Job(src: seq<byte>, dst: array<byte>, start: nat, oend: nat,
                     partial: bool, mode: DictMode, lowPrefix: int, dict: seq<byte>)
  {
    ghost predicate Valid() {
      && start <= oend <= dst.Length
      && (mode != UsingExtDict ==> dict == [])
      && (if mode == WithPrefix64k then start >= DISTANCE_MAX && lowPrefix == start - 65536
          else 0 <= lowPrefix <= start)
    }

    /** Where the prefix that matches may use begins. With a 64 KB prefix every
        offset stays inside the array, so that is the whole array. */
    ghost function Low(): nat
      requires Valid()
    {
      if mode == WithPrefix64k then 0 else lowPrefix
    }

    /** Everything a match can refer to: dictionary, prefix, output so far. */
    ghost function Window(a: seq<byte>, op: nat): (r: seq<byte>)
      requires Valid() && start <= op <= oend && |a| == dst.Length
      ensures |r| == |dict| + op - Low()
    {
      dict + a[Low()..op]
    }

    /** A block that decodes to `end` bytes fits the room there is. */
    ghost predicate Fits(end: nat)
      requires Valid()
    {
      end <= Room()
    }

    ghost function Room(): (n: nat)
      requires Valid()
    {
      |dict| + oend - Low()
    }

    // -------------------------------------------------------------------
    // The same for one sequence `q` of the block
    // -------------------------------------------------------------------

    /** What a well-formed block guarantees of each of its sequences. */
    ghost predicate Sound(q: Sequence, full: seq<byte>) {
      q.Last? || (q.Match? && 1 <= q.off <= |full| + q.ll && q.next + 1 + LASTLITERALS <= |src|)
    }

    /** The sequence cannot be part of a well-formed block that fits. */
    ghost predicate Rejects(q: Sequence, full: seq<byte>)
      requires Valid()
    {
      !Sound(q, full) || Overflows(q, full)
    }

    ghost predicate Overflows(q: Sequence, full: seq<byte>)
      requires Valid()
    {
      match q
      case Malformed => true
      case Last(_, ll) => |full| + ll > Room()
      case Match(_, ll, _, ml, _) =>
        |full| + ll + MFLIMIT > Room() || |full| + ll + ml + LASTLITERALS > Room()
    }
  }

  /** What an iteration decodes, on top of `full`: the sequence `q` and, for a partial
      decode, the step `p`. */
  datatype Goal = Goal(q: Sequence, p: PartialStep, full: seq<byte>)

  /** Where an iteration of a decoding loop ends. `ToLiterals` and `ToMatch` are
      the two jumps from the fast loop into the middle of the safe loop. */
  datatype Outcome =
    | Next(ip: nat, op: nat)
    | Done(op: nat)
    | Fail(ip: nat)
    | ToLiterals(token: byte, ip: nat, op: nat, length: nat)
    | ToMatch(ip: nat, op: nat, offset: nat, length: nat)

  lemma WindowAppend(j: Job, a: seq<byte>, b: seq<byte>, op: nat, x: seq<byte>)
    requires j.Valid() && j.start <= op && op + |x| <= j.oend
    requires |a| == |b| == j.dst.Length
    requires b[..op + |x|] == a[..op] + x
    ensures j.Window(b, op + |x|) == j.Window(a, op) + x
  {
    var lo := j.Low();
    assert b[lo..op + |x|] == b[..op + |x|][lo..] == a[lo..op] + x;
  }

  /** A match copied inside the array is a match copied inside the window. */
  lemma WindowExtend(j: Job, a: seq<byte>, b: seq<byte>, op: nat, off: nat, n: nat)
    requires j.Valid() && j.start <= op && op + n <= j.oend
    requires |a| == |b| == j.dst.Length
    requires off <= op - j.Low()
    requires b[..op + n] == Extend(a[..op], off, n)
    ensures j.Window(b, op + n) == Extend(j.Window(a, op), off, n)
  {
    var lo := j.Low();
    assert a[..op] == a[..lo] + a[lo..op];
    ExtendHistory(a[..lo], a[lo..op], off, n);
    ExtendHistory(j.dict, a[lo..op], off, n);
    assert b[lo..op + n] == b[..op + n][lo..];
  }

  lemma WindowPrefix(j: Job, a: seq<byte>, b: seq<byte>, op: nat)
    requires j.Valid() && j.start <= op <= j.oend
    requires |a| == |b| == j.dst.Length && a[..op] == b[..op]
    ensures j.Window(a, op) == j.Window(b, op)
  {
    assert a[j.Low()..op] == a[..op][j.Low()..];
    assert b[j.Low()..op] == b[..op][j.Low()..];
  }

  lemma WindowSplit(j: Job, b: seq<byte>, op: nat)
    requires j.Valid() && j.start <= op <= j.oend && |b| == j.dst.Length
    ensures j.Window(b, op) == j.Window(b, j.start) + b[j.start..op]
  {
    assert b[j.Low()..op] == b[j.Low()..j.start] + b[j.start..op];
  }

  lemma WellFormedIsSound(j: Job, ip: nat, full: seq<byte>, end: nat)
    requires WellFormedFrom(j.src, ip, full, end)
    ensures j.Sound(ParseAt(j.src, ip), full)
  {
    var q := ParseAt(j.src, ip);
    if q.Match? {
      WellFormedRoom(j.src, q.next, StepWindow(j.src, q, full), end);
    }
  }

  lemma RejectedIsIllFormed(j: Job, ip: nat, full: seq<byte>, end: nat)
    requires j.Valid() && j.Rejects(ParseAt(j.src, ip), full) && j.Fits(end)
    ensures !WellFormedFrom(j.src, ip, full, end)
  {
    if WellFormedFrom(j.src, ip, full, end) {
      WellFormedIsSound(j, ip, full, end);
    }
  }
}
