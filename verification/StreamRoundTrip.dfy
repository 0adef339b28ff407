/** Streams: a run of blocks compressed one after the other, and decoded likewise. */
module StreamRoundTrip {
  import opened Bytes
  import opened BlockFormat
  import opened Stretches
  import opened CompressorState
  import opened CompressStream
  import opened Decompress
  import opened DecompressStream
  import opened RoundTrip

  // ---------------------------------------------------------------------
  // Streams of blocks
  // ---------------------------------------------------------------------

  /** The first `k` parts of a stream. */
  ghost function Joined(xs: seq<seq<byte>>, k: nat): seq<byte>
    requires k <= |xs|
  {
    if k == 0 then [] else Joined(xs, k - 1) + xs[k - 1]
  }

  ghost function Whole(xs: seq<seq<byte>>): seq<byte> {
    Joined(xs, |xs|)
  }

  function Recent(s: seq<byte>, n: nat): seq<byte>
    requires n <= |s|
  {
    s[|s| - n..]
  }

  /** `b` is the block for `x` where `s` comes before; it builds on the last `used` bytes. */
  ghost predicate Links(b: seq<byte>, s: seq<byte>, used: nat, x: seq<byte>) {
    used <= |s| && Encodes(b, Recent(s, used), x) && (x == [] ==> b == [0])
  }

  /** The first `k` blocks of a stream that starts behind `d`. */
  ghost predicate Chained(blocks: seq<seq<byte>>, used: seq<nat>, d: seq<byte>, xs: seq<seq<byte>>, k: nat)
    requires k <= |xs| && k <= |blocks| && |used| == |blocks|
    decreases k
  {
    k == 0 || (Chained(blocks, used, d, xs, k - 1) && Links(blocks[k - 1], d + Joined(xs, k - 1), used[k - 1], xs[k - 1]))
  }

  ghost predicate IsStream(blocks: seq<seq<byte>>, used: seq<nat>, d: seq<byte>, xs: seq<seq<byte>>) {
    |used| == |blocks| == |xs| && Chained(blocks, used, d, xs, |xs|)
  }

  lemma {:induction false} ChainedAt(blocks: seq<seq<byte>>, used: seq<nat>, d: seq<byte>, xs: seq<seq<byte>>, k: nat, i: nat)
    requires i < k <= |xs| && k <= |blocks| && |used| == |blocks| && Chained(blocks, used, d, xs, k)
    ensures Links(blocks[i], d + Joined(xs, i), used[i], xs[i])
    decreases k
  {
    if i < k - 1 {
      ChainedAt(blocks, used, d, xs, k - 1, i);
    }
  }

  lemma {:induction false} ChainedLonger(blocks: seq<seq<byte>>, used: seq<nat>, b: seq<byte>, u: nat, d: seq<byte>,
                                         xs: seq<seq<byte>>, k: nat)
    requires k <= |xs| && k <= |blocks| && |used| == |blocks| && Chained(blocks, used, d, xs, k)
    ensures Chained(blocks + [b], used + [u], d, xs, k)
    decreases k
  {
    if k > 0 {
      ChainedLonger(blocks, used, b, u, d, xs, k - 1);
    }
  }

  lemma ChainedNext(blocks: seq<seq<byte>>, used: seq<nat>, b: seq<byte>, u: nat, d: seq<byte>, xs: seq<seq<byte>>)
    requires |used| == |blocks| < |xs| && Chained(blocks, used, d, xs, |blocks|)
    requires Links(b, d + Joined(xs, |blocks|), u, xs[|blocks|])
    ensures Chained(blocks + [b], used + [u], d, xs, |blocks| + 1)
    ensures d + Joined(xs, |blocks|) + xs[|blocks|] == d + Joined(xs, |blocks| + 1)
  {
    ChainedLonger(blocks, used, b, u, d, xs, |blocks|);
  }

  // ---------------------------------------------------------------------
  // Compressing
  // ---------------------------------------------------------------------

  /** Source must not be written over the end of the source before. */
  predicate Clear(end: int, at: nat, n: nat) {
    end <= at || at + n < end
  }

  /** Where the source before the one at `i` ends. */
  function EndOf(at: seq<nat>, xs: seq<seq<byte>>, end: int, i: nat): int
    requires i <= |at| == |xs|
  {
    if i == 0 then end else at[i - 1] + |xs[i - 1]|
  }

  /** How much source stands in one piece right before the one at `i`. */
  function Behind(at: seq<nat>, xs: seq<seq<byte>>, end: int, n: nat, i: nat): nat
    requires i <= |at| == |xs|
  {
    if i == 0 then n
    else |xs[i - 1]| + if at[i - 1] == EndOf(at, xs, end, i - 1) then Behind(at, xs, end, n, i - 1) else 0
  }

  /** How much of it the source at `i` is not written over. */
  function Reach(at: seq<nat>, xs: seq<seq<byte>>, end: int, n: nat, i: nat): nat
    requires i < |at| == |xs|
  {
    Spared(EndOf(at, xs, end, i), Behind(at, xs, end, n, i), at[i], |xs[i]|)
  }

  /** A longer stretch is spared no less. */
  lemma SparedMore(end: int, size: nat, more: nat, start: nat, room: nat)
    requires size <= more
    ensures Spared(end, size, start, room) <= Spared(end, more, start, room)
  {
  }

  /** The sources of a stream, to be written to memory one after the other, each where
      it leaves the end of the one before. */
  ghost predicate Sources(at: seq<nat>, xs: seq<seq<byte>>, size: nat, end: int, n: nat) {
    && |at| == |xs|
    && (forall i :: 0 <= i < |xs| ==> at[i] + |xs[i]| <= size && |xs[i]| <= MAX_INPUT_SIZE)
    && (forall i :: 0 <= i < |xs| ==> (i == 0 && n == 0) || Clear(EndOf(at, xs, end, i), at[i], |xs[i]|))
  }

  /** What served as history was the end of the stream, wherever the source was written. */
  lemma HistoryIsRecent(h: seq<byte>, before: seq<byte>, mem: seq<byte>, end: int, n0: nat, source: nat, n: nat, s: seq<byte>)
    requires Kept(before, mem, source, source + n) && HistoryAt(h, mem, end, n0, source, n)
    requires n0 > 0 ==> 0 <= end - n0 && end <= |mem| && Suffix(before[end - n0..end], s)
    ensures Suffix(h, s)
  {
    if h == [] {
      SuffixIs(h, s);
    } else {
      KeptOutside(before, mem, source, source + n, end - |h|, end);
      SuffixOfStretch(before, end - n0, end - |h|, end);
      SuffixTrans(h, before[end - n0..end], s);
    }
  }

  /** The next dictionary is the end of the stream again. */
  lemma NextDictionary(h: seq<byte>, mem: seq<byte>, end: int, n0: nat, source: nat, n: nat, size: nat, s: seq<byte>)
    requires HistoryAt(h, mem, end, n0, source, n) && Suffix(h, s) && source + n <= |mem|
    requires 0 < size <= |h| + n && (size > n ==> source == end)
    ensures 0 <= source + n - size && Suffix(mem[source + n - size..source + n], s + mem[source..source + n])
  {
    var x := mem[source..source + n];
    if size <= n {
      SuffixOfStretch(mem, source, source + n - size, source + n);
      SuffixOfSum(s, x);
      SuffixTrans(mem[source + n - size..source + n], x, s + x);
    } else {
      SuffixOfStretch(mem, source - |h|, source + n - size, source);
      SuffixTrans(mem[source + n - size..source], h, s);
      SuffixGrows(mem[source + n - size..source], s, x);
      assert mem[source + n - size..source + n] == mem[source + n - size..source] + x;
    }
  }

  lemma LinksBy(b: seq<byte>, s: seq<byte>, h: seq<byte>, x: seq<byte>)
    requires Encodes(b, h, x) && Suffix(h, s) && (x == [] ==> b == [0])
    ensures Links(b, s, |h|, x)
  {
    SuffixIs(h, s);
  }

  /** One call of LZ4_compress_fast_continue, into a buffer of its own. `mem` differs
      from `before` in the new source. */
  method StreamBlock(state: Stream, mem: seq<byte>, source: nat, n: nat, capacity: nat, acceleration: int,
                     hash: seq<byte> -> nat, ghost before: seq<byte>, ghost s: seq<byte>)
    returns (b: seq<byte>, ghost used: nat)
    requires source + n <= |mem| && n <= MAX_INPUT_SIZE && Kept(before, mem, source, source + n)
    requires state.Streaming(before) && Suffix(state.Dictionary(before), s)
    requires state.dictSize > 0 ==> Clear(state.dictionary + state.dictSize, source, n)
    modifies state, state.hashTable
    ensures |b| <= capacity && (b == [] ==> capacity < CompressBound(n))
    ensures b != [] ==> Links(b, s, used, mem[source..source + n])
    ensures b != [] ==> used <= Spared(old(state.dictionary + state.dictSize), old(state.dictSize), source, n)
    ensures b != [] ==> state.Streaming(mem) && Suffix(state.Dictionary(mem), s + mem[source..source + n])
    ensures b != [] ==> state.dictSize <= n + if source == old(state.dictionary + state.dictSize) then old(state.dictSize) else 0
    ensures b != [] && state.dictSize > 0 ==> state.dictionary + state.dictSize == source + n
  {
    var dst := new byte[capacity];
    ghost var end, n0, h := state.dictionary + state.dictSize, state.dictSize, [];
    var r;
    r, h := state.FastContinue(mem, source, dst, n, capacity, acceleration, hash);
    b, used := dst[..r], |h|;
    if r > 0 {
      HistoryIsRecent(h, before, mem, end, n0, source, n, s);
      LinksBy(b, s, h, mem[source..source + n]);
      if state.dictSize > 0 {
        NextDictionary(h, mem, end, n0, source, n, state.dictSize, s);
      } else {
        SuffixIs([], s + mem[source..source + n]);
      }
    }
  }

  /** The state before source `i` of a stream, when `s` is what came before. */
  ghost predicate Ready(state: Stream, mem: seq<byte>, at: seq<nat>, xs: seq<seq<byte>>, end: int, n: nat, i: nat, s: seq<byte>)
    requires i <= |at| == |xs|
    reads state, state.hashTable
  {
    && state.Streaming(mem) && Suffix(state.Dictionary(mem), s)
    && (state.dictSize > 0 ==> state.dictionary + state.dictSize == EndOf(at, xs, end, i))
    && state.dictSize <= Behind(at, xs, end, n, i)
  }

  /** Source `i` is written to memory, and compressed. */
  method NextSource(state: Stream, before: seq<byte>, at: seq<nat>, xs: seq<seq<byte>>, i: nat, capacity: nat,
                    acceleration: int, hash: seq<byte> -> nat, ghost end: int, ghost n: nat, ghost s: seq<byte>)
    returns (b: seq<byte>, mem: seq<byte>, ghost used: nat)
    requires i < |at| == |xs| && Sources(at, xs, |before|, end, n) && Ready(state, before, at, xs, end, n, i, s)
    modifies state, state.hashTable
    ensures |mem| == |before| && (b == [] ==> capacity < CompressBound(|xs[i]|))
    ensures b != [] ==> Links(b, s, used, xs[i]) && used <= Reach(at, xs, end, n, i)
    ensures b != [] ==> Ready(state, mem, at, xs, end, n, i + 1, s + xs[i])
  {
    mem := Blit(before, at[i], xs[i]);
    SparedMore(EndOf(at, xs, end, i), state.dictSize, Behind(at, xs, end, n, i), at[i], |xs[i]|);
    b, used := StreamBlock(state, mem, at[i], |xs[i]|, capacity, acceleration, hash, before, s);
  }

  /** No block of a stream builds on more than the source that stood right before its own. */
  ghost predicate InReach(used: seq<nat>, at: seq<nat>, xs: seq<seq<byte>>, end: int, n: nat)
    requires |used| <= |at| == |xs|
  {
    forall i :: 0 <= i < |used| ==> used[i] <= Reach(at, xs, end, n, i)
  }

  lemma InReachNext(used: seq<nat>, u: nat, at: seq<nat>, xs: seq<seq<byte>>, end: int, n: nat)
    requires |used| < |at| == |xs| && InReach(used, at, xs, end, n) && u <= Reach(at, xs, end, n, |used|)
    ensures InReach(used + [u], at, xs, end, n)
  {
  }

  /** Any run of LZ4_compress_fast_continue on a state that knows the end of `d`. Before
      each call its source is written to memory, anywhere: behind the one before, or over
      an older part of the stream. */
  method CompressRun(state: Stream, start: seq<byte>, at: seq<nat>, xs: seq<seq<byte>>, capacity: seq<nat>,
                     acceleration: int, hash: seq<byte> -> nat, ghost d: seq<byte>, ghost end: int, ghost n: nat)
    returns (ok: bool, blocks: seq<seq<byte>>, ghost used: seq<nat>)
    requires Sources(at, xs, |start|, end, n) && |capacity| == |xs|
    requires Ready(state, start, at, xs, end, n, 0, d)
    modifies state, state.hashTable
    ensures ok ==> IsStream(blocks, used, d, xs)
    ensures ok ==> InReach(used, at, xs, end, n)
    ensures !ok ==> exists i :: 0 <= i < |xs| && capacity[i] < CompressBound(|xs[i]|)
  {
    ghost var s := d;
    var mem := start;
    blocks, used := [], [];
    assert d + Joined(xs, 0) == d;
    while |blocks| < |xs|
      invariant |used| == |blocks| <= |xs| && |mem| == |start|
      invariant Ready(state, mem, at, xs, end, n, |blocks|, s)
      invariant s == d + Joined(xs, |blocks|) && Chained(blocks, used, d, xs, |blocks|)
      invariant InReach(used, at, xs, end, n)
      decreases |xs| - |blocks|
    {
      var i := |blocks|;
      var b;
      ghost var u;
      b, mem, u := NextSource(state, mem, at, xs, i, capacity[i], acceleration, hash, end, n, s);
      if b == [] {
        return false, blocks, used;
      }
      ChainedNext(blocks, used, b, u, d, xs);
      InReachNext(used, u, at, xs, end, n);
      s := s + xs[i];
      blocks, used := blocks + [b], used + [u];
    }
    ok := true;
  }

  lemma StartsReady(state: Stream, mem: seq<byte>, at: seq<nat>, xs: seq<seq<byte>>, end: int, n: nat, i: nat, s: seq<byte>)
    requires |at| == |xs| && i == 0 && state.Streaming(mem) && Suffix(state.Dictionary(mem), s)
    requires state.dictSize <= n && (state.dictSize > 0 ==> state.dictionary + state.dictSize == end)
    ensures Ready(state, mem, at, xs, end, n, i, s)
  {
  }

  /** The same on a stream that begins with a dictionary, by LZ4_loadDict. */
  method CompressWithDictionary(mem: seq<byte>, dict: nat, dictSize: nat, at: seq<nat>, xs: seq<seq<byte>>, capacity: seq<nat>,
                                acceleration: int, hash: seq<byte> -> nat, ghost end: nat)
    returns (ok: bool, blocks: seq<seq<byte>>, ghost used: seq<nat>)
    requires end == dict + dictSize <= |mem| && Sources(at, xs, |mem|, end, dictSize) && |capacity| == |xs|
    ensures ok ==> IsStream(blocks, used, mem[dict..end], xs) && InReach(used, at, xs, end, dictSize)
    ensures !ok ==> exists i :: 0 <= i < |xs| && capacity[i] < CompressBound(|xs[i]|)
  {
    var state := new Stream();
    var loaded := state.LoadDict(mem, dict, dictSize, false, hash);
    ghost var d := mem[dict..end];
    SuffixOfStretch(mem, dict, end - loaded, end);
    StartsReady(state, mem, at, xs, end, dictSize, 0, d);
    ok, blocks, used := CompressRun(state, mem, at, xs, capacity, acceleration, hash, d, end, dictSize);
  }

  /** The same on a stream that begins with nothing, on any state that was initialised:
      a new one, or one that was used before, after LZ4_resetStream_fast. */
  method CompressAnew(state: Stream, mem: seq<byte>, at: seq<nat>, xs: seq<seq<byte>>, capacity: seq<nat>,
                      acceleration: int, hash: seq<byte> -> nat)
    returns (ok: bool, blocks: seq<seq<byte>>, ghost used: seq<nat>)
    requires state.Initialised() && Sources(at, xs, |mem|, 0, 0) && |capacity| == |xs|
    modifies state, state.hashTable
    ensures ok ==> IsStream(blocks, used, [], xs) && InReach(used, at, xs, 0, 0)
    ensures !ok ==> exists i :: 0 <= i < |xs| && capacity[i] < CompressBound(|xs[i]|)
  {
    state.ResetFast();
    SuffixSelf([]);
    ok, blocks, used := CompressRun(state, mem, at, xs, capacity, acceleration, hash, [], 0, 0);
  }

  // ---------------------------------------------------------------------
  // Decoding
  // ---------------------------------------------------------------------

  /** The last `intact` bytes of the dictionary, and the prefix, are the end of the stream `s`. */
  ghost predicate Remembers(sd: StreamDecode, intact: nat, s: seq<byte>)
    reads sd, sd.prefixBuf, sd.extBuf
  {
    sd.Valid() && intact <= sd.extDictSize && Suffix(sd.ExternalTail(intact) + sd.Prefix(), s)
  }

  lemma TailOfTail(sd: StreamDecode, j: nat, k: nat)
    requires sd.Valid() && j <= k <= sd.extDictSize
    ensures Suffix(sd.ExternalTail(j), sd.ExternalTail(k)) && sd.ExternalTail(j) == Recent(sd.ExternalTail(k), j)
  {
    var end := sd.extStart + sd.extDictSize;
    SuffixOfStretch(sd.extBuf[..], end - k, end - j, end);
    SuffixIs(sd.ExternalTail(j), sd.ExternalTail(k));
  }

  lemma TailOfPrefix(sd: StreamDecode, k: nat)
    requires sd.Valid() && k <= sd.prefixSize
    ensures Suffix(sd.PrefixTail(k), sd.Prefix())
  {
    SuffixOfStretch(sd.prefixBuf[..], sd.prefixEnd - sd.prefixSize, sd.prefixEnd - k, sd.prefixEnd);
  }

  lemma TailBefore(e: seq<byte>, f: seq<byte>, p: seq<byte>, s: seq<byte>)
    requires Suffix(e + p, s) && Suffix(f, e)
    ensures Suffix(f + p, s)
  {
    SuffixGrows(f, e, p);
    SuffixTrans(f + p, e + p, s);
  }

  lemma TailWithin(e: seq<byte>, p: seq<byte>, k: seq<byte>, s: seq<byte>)
    requires Suffix(e + p, s) && Suffix(k, p)
    ensures Suffix(k, s)
  {
    SuffixOfSum(e, p);
    SuffixTrans(p, e + p, s);
    SuffixTrans(k, p, s);
  }

  /** The last `known` bytes of a history are enough for a block that builds on no more
      than them, or if they are as many as any offset reaches. */
  lemma EnoughKnown(b: seq<byte>, s: seq<byte>, used: nat, x: seq<byte>, k: seq<byte>, t: seq<byte>)
    requires Links(b, s, used, x) && Suffix(t, k) && Suffix(t, s) && |t| >= Min(used, DISTANCE_MAX)
    ensures Encodes(b, k, x)
  {
    var h := Recent(s, used);
    SuffixIs(h, s);
    SuffixIs(t, s);
    if used <= |t| {
      assert Recent(t, used) == h;
      SuffixIs(h, t);
      EncodesOnMore(b, h, t, x);
    } else {
      assert Recent(h, |t|) == t;
      SuffixIs(t, h);
      EncodesOnRecent(b, h, t, x);
    }
    EncodesOnMore(b, t, k, x);
  }

  lemma EnoughRolling(b: seq<byte>, s: seq<byte>, used: nat, x: seq<byte>, e: seq<byte>, f: seq<byte>, g: seq<byte>, p: seq<byte>)
    requires Links(b, s, used, x) && Suffix(e + p, s) && Suffix(f, e) && Suffix(f, g)
    requires |f| + |p| >= Min(used, DISTANCE_MAX)
    ensures Encodes(b, g + p, x)
  {
    TailBefore(e, f, p, s);
    SuffixGrows(f, g, p);
    EnoughKnown(b, s, used, x, g + p, f + p);
  }

  lemma EnoughWithin(b: seq<byte>, s: seq<byte>, used: nat, x: seq<byte>, e: seq<byte>, p: seq<byte>, k: seq<byte>)
    requires Links(b, s, used, x) && Suffix(e + p, s) && Suffix(k, p) && |k| >= Min(used, DISTANCE_MAX)
    ensures Encodes(b, k, x)
  {
    TailWithin(e, p, k, s);
    SuffixSelf(k);
    EnoughKnown(b, s, used, x, k, k);
  }

  /** A block is decoded on what the decoder knows. */
  lemma KnownIsEnough(sd: StreamDecode, intact: nat, s: seq<byte>, dst: array<byte>, at: nat, room: nat,
                      b: seq<byte>, used: nat, x: seq<byte>, k: seq<byte>)
    requires Remembers(sd, intact, s) && Links(b, s, used, x) && k == sd.Known(dst, at, room)
    requires sd.State().KnownSize(dst, at, room, intact) >= Min(used, DISTANCE_MAX)
    ensures Encodes(b, k, x)
  {
    var place, e, p := sd.State(), sd.ExternalTail(intact), sd.Prefix();
    if !place.Rolls(dst, at) {
      TailOfPrefix(sd, place.SparedPrefix(dst, at, room));
      EnoughWithin(b, s, used, x, e, p, k);
    } else if sd.prefixSize < DISTANCE_MAX {
      var spared := place.SparedExternal(dst, at, room);
      var m := Min(intact, spared);
      TailOfTail(sd, m, intact);
      TailOfTail(sd, m, spared);
      EnoughRolling(b, s, used, x, e, sd.ExternalTail(m), sd.ExternalTail(spared), p);
    } else {
      SuffixSelf(p);
      EnoughWithin(b, s, used, x, e, p, k);
    }
  }

  /** What it knows after `x`: of the dictionary, and as the prefix. */
  ghost function NextTail(sd: StreamDecode, intact: nat, dst: array<byte>, at: nat, room: nat, x: seq<byte>): seq<byte>
    requires sd.Valid() && intact <= sd.extDictSize
    reads sd, sd.prefixBuf, sd.extBuf
  {
    var place := sd.State();
    if sd.prefixSize == 0 then []
    else if place.Rolls(dst, at) then sd.ExternalTail(Min(intact, place.SparedExternal(dst, at, room)))
    else if x == [] then []
    else sd.PrefixTail(place.SparedPrefix(dst, at, room))
  }

  ghost function NextPrefix(sd: StreamDecode, dst: array<byte>, at: nat, x: seq<byte>): seq<byte>
    requires sd.Valid()
    reads sd, sd.prefixBuf
  {
    if sd.State().Rolls(dst, at) then sd.Prefix() + x else if x == [] then sd.Prefix() else x
  }

  lemma NextRolling(e0: seq<byte>, e: seq<byte>, p0: seq<byte>, s: seq<byte>, x: seq<byte>)
    requires Suffix(e0 + p0, s) && Suffix(e, e0)
    ensures Suffix(e + (p0 + x), s + x)
  {
    TailBefore(e0, e, p0, s);
    SuffixGrows(e + p0, s, x);
    assert e + (p0 + x) == e + p0 + x;
  }

  lemma NextWithin(e0: seq<byte>, e: seq<byte>, p0: seq<byte>, s: seq<byte>, x: seq<byte>)
    requires Suffix(e0 + p0, s) && Suffix(e, p0)
    ensures Suffix(e + x, s + x)
  {
    TailWithin(e0, p0, e, s);
    SuffixGrows(e, s, x);
  }

  lemma NothingMore(e: seq<byte>, p: seq<byte>, x: seq<byte>)
    requires e == [] && x == []
    ensures e + p == p + x
  {
  }

  lemma NothingBefore(e: seq<byte>, p: seq<byte>, x: seq<byte>)
    requires e == [] && p == []
    ensures e + (p + x) == x && e + x == x && (x == [] ==> e + p == x)
  {
  }

  lemma NextKnown(sd: StreamDecode, intact: nat, s: seq<byte>, dst: array<byte>, at: nat, room: nat, x: seq<byte>,
                  e: seq<byte>, p: seq<byte>)
    requires Remembers(sd, intact, s)
    requires e == NextTail(sd, intact, dst, at, room, x) && p == NextPrefix(sd, dst, at, x)
    ensures Suffix(e + p, s + x)
  {
    var place, e0, p0 := sd.State(), sd.ExternalTail(intact), sd.Prefix();
    if sd.prefixSize == 0 {
      SuffixOfSum(s, x);
      NothingBefore(e, p0, x);
    } else if place.Rolls(dst, at) {
      TailOfTail(sd, Min(intact, place.SparedExternal(dst, at, room)), intact);
      NextRolling(e0, e, p0, s, x);
    } else if x == [] {
      SuffixSelf(p0);
      NextWithin(e0, p0, p0, s, x);
      NothingMore(e, p0, x);
    } else {
      TailOfPrefix(sd, place.SparedPrefix(dst, at, room));
      NextWithin(e0, e, p0, s, x);
    }
  }

  /** A block that is decoded on what is known comes out right. */
  method DecodeKnown(sd: StreamDecode, b: seq<byte>, dst: array<byte>, at: nat, room: nat, ghost x: seq<byte>,
                     ghost k: seq<byte>, ghost g: seq<byte>)
    returns (r: nat)
    requires sd.Valid() && |x| <= room && at + room <= dst.Length
    requires k == sd.Known(dst, at, room) && Encodes(b, k, x) && (x == [] ==> b == [0])
    requires sd.State().Rolls(dst, at) ==> g == sd.ExternalTail(sd.State().SparedExternal(dst, at, room))
    requires !sd.State().Rolls(dst, at) ==> g == sd.PrefixTail(sd.State().SparedPrefix(dst, at, room))
    modifies sd, dst
    ensures Kept(old(dst[..]), dst[..], at, at + room) && r == |x| && dst[at..at + r] == x
    ensures sd.Valid() && sd.State() == old(sd.State()).Next(dst, at, r)
    ensures old(sd.State()).Rolls(dst, at) ==> sd.Prefix() == old(sd.Prefix()) + x
    ensures !old(sd.State()).Rolls(dst, at) && x != [] ==> sd.Prefix() == x
    ensures old(sd.prefixSize) > 0 ==> |g| <= sd.extDictSize && sd.ExternalTail(|g|) == g
  {
    ghost var p := sd.Prefix();
    var d;
    ghost var lost;
    d, lost := sd.SafeContinue(b, dst, at, room);
    SuffixOfSum(lost, k);
    EncodesOnMore(b, k, lost + k, x);
    DecodesBack(b, lost + k, x, dst[at..at + room], d);
    assert dst[at..at + room][..d] == dst[at..at + d];
    assert [] + x == x && p + [] == p;
    r := d;
  }

  /** Afterwards it knows what `NextTail` and `NextPrefix` say. */
  method DecodeAndKeep(sd: StreamDecode, b: seq<byte>, dst: array<byte>, at: nat, room: nat, ghost intact: nat,
                       ghost x: seq<byte>, ghost k: seq<byte>, ghost e: seq<byte>, ghost p: seq<byte>)
    returns (r: nat)
    requires sd.Valid() && |x| <= room && at + room <= dst.Length && intact <= sd.extDictSize
    requires k == sd.Known(dst, at, room) && Encodes(b, k, x) && (x == [] ==> b == [0])
    requires x == [] && !sd.State().Rolls(dst, at) ==> sd.State().SparedPrefix(dst, at, room) == sd.prefixSize
    requires e == NextTail(sd, intact, dst, at, room, x) && p == NextPrefix(sd, dst, at, x)
    modifies sd, dst
    ensures Kept(old(dst[..]), dst[..], at, at + room) && r == |x| && dst[at..at + r] == x
    ensures sd.Valid() && sd.State() == old(sd.State()).Next(dst, at, |x|)
    ensures |e| <= sd.extDictSize && sd.ExternalTail(|e|) == e && sd.Prefix() == p
  {
    ghost var place := sd.State();
    ghost var g := if place.Rolls(dst, at) then sd.ExternalTail(place.SparedExternal(dst, at, room))
                   else sd.PrefixTail(place.SparedPrefix(dst, at, room));
    if place.prefixSize > 0 && place.Rolls(dst, at) {
      TailOfTail(sd, |e|, |g|);
    }
    assert e == [] || (place.prefixSize > 0 && |e| <= |g| && e == Recent(g, |e|));
    r := DecodeKnown(sd, b, dst, at, room, x, k, g);
    KeepsTail(sd, e, g);
  }

  lemma KeepsTail(sd: StreamDecode, e: seq<byte>, g: seq<byte>)
    requires sd.Valid()
    requires e == [] || (|e| <= |g| <= sd.extDictSize && sd.ExternalTail(|g|) == g && e == Recent(g, |e|))
    ensures |e| <= sd.extDictSize && sd.ExternalTail(|e|) == e
  {
    if e != [] {
      TailOfTail(sd, |e|, |g|);
    }
  }

  lemma NowReached(sd: StreamDecode, p: Standing, e: seq<byte>, q: seq<byte>, s: seq<byte>)
    requires sd.Valid() && sd.State() == p.place && |e| == p.intact <= sd.extDictSize
    requires sd.ExternalTail(|e|) == e && sd.Prefix() == q && Suffix(e + q, s)
    ensures Reached(sd, p, s)
  {
  }

  /** One call of LZ4_decompress_safe_continue: the next part of the stream. */
  method DecodeNext(sd: StreamDecode, b: seq<byte>, dst: array<byte>, at: nat, room: nat,
                    ghost p: Standing, ghost s: seq<byte>, ghost used: nat, ghost x: seq<byte>)
    returns (r: nat)
    requires Reached(sd, p, s) && Links(b, s, used, x) && DecodableAt(p, dst, at, room, |x|, used)
    modifies sd, dst
    ensures Kept(old(dst[..]), dst[..], at, at + room) && r == |x| && dst[at..at + r] == x
    ensures Reached(sd, p.Next(dst, at, room, |x|), s + x)
  {
    ghost var intact := p.intact;
    ghost var k, e, q := sd.Known(dst, at, room), NextTail(sd, intact, dst, at, room, x), NextPrefix(sd, dst, at, x);
    KnownIsEnough(sd, intact, s, dst, at, room, b, used, x, k);
    NextKnown(sd, intact, s, dst, at, room, x, e, q);
    ghost var next := p.Next(dst, at, room, |x|);
    assert |e| == next.intact;
    r := DecodeAndKeep(sd, b, dst, at, room, intact, x, k, e, q);
    NowReached(sd, next, e, q, s + x);
  }

  // ---------------------------------------------------------------------
  // Blocks decoded anywhere
  // ---------------------------------------------------------------------

  /** Where the decoder is, and how much of its dictionary is still that of the stream. */
  datatype Standing = Standing(place: Place, intact: nat) {
    function Next(dst: array<byte>, at: nat, room: nat, n: nat): Standing {
      Standing(place.Next(dst, at, n), place.IntactNext(dst, at, room, n, intact))
    }
  }

  /** Where it is before each part, and in the end, when the parts are decoded to `to`. */
  ghost predicate Tracks(track: seq<Standing>, dst: array<byte>, to: seq<nat>, room: seq<nat>, xs: seq<seq<byte>>) {
    && |to| == |room| == |xs| && |track| == |xs| + 1
    && forall i :: 0 <= i < |xs| ==> track[i + 1] == track[i].Next(dst, to[i], room[i], |xs[i]|)
  }

  lemma {:induction false} Track(first: Standing, dst: array<byte>, to: seq<nat>, room: seq<nat>, xs: seq<seq<byte>>)
    returns (track: seq<Standing>)
    requires |to| == |room| == |xs|
    ensures Tracks(track, dst, to, room, xs) && track[0] == first
    decreases |xs|
  {
    track := [first];
    if xs != [] {
      var k := |xs| - 1;
      track := Track(first, dst, to[..k], room[..k], xs[..k]);
      track := track + [track[k].Next(dst, to[k], room[k], |xs[k]|)];
    }
  }

  /** Every part has room, and what is remembered and not decoded over is enough. */
  ghost predicate Decodable(track: seq<Standing>, dst: array<byte>, to: seq<nat>, room: seq<nat>, xs: seq<seq<byte>>, used: seq<nat>) {
    && Tracks(track, dst, to, room, xs) && |used| == |xs|
    && forall i :: 0 <= i < |xs| ==> DecodableAt(track[i], dst, to[i], room[i], |xs[i]|, used[i])
  }

  ghost predicate DecodableAt(p: Standing, dst: array<byte>, at: nat, room: nat, n: nat, used: nat) {
    && n <= room && at + room <= dst.Length && p.place.KnownSize(dst, at, room, p.intact) >= Min(used, DISTANCE_MAX)
    && (n == 0 && !p.place.Rolls(dst, at) ==> p.place.SparedPrefix(dst, at, room) == p.place.prefixSize)
  }

  /** The decoder at `p`, when `s` is the stream so far. */
  ghost predicate Reached(sd: StreamDecode, p: Standing, s: seq<byte>)
    reads sd, sd.prefixBuf, sd.extBuf
  {
    sd.State() == p.place && Remembers(sd, p.intact, s)
  }

  /** Block `i` of a stream, decoded to its place. */
  method DecodePart(sd: StreamDecode, blocks: seq<seq<byte>>, dst: array<byte>, at: nat, n: nat, i: nat,
                    ghost track: seq<Standing>, ghost to: seq<nat>, ghost room: seq<nat>, ghost used: seq<nat>,
                    ghost d: seq<byte>, ghost xs: seq<seq<byte>>, ghost s: seq<byte>)
    returns (r: nat, ghost s2: seq<byte>)
    requires IsStream(blocks, used, d, xs) && Decodable(track, dst, to, room, xs, used)
    requires i < |xs| && at == to[i] && n == room[i] && Reached(sd, track[i], s) && s == d + Joined(xs, i)
    modifies sd, dst
    ensures Kept(old(dst[..]), dst[..], at, at + n) && r == |xs[i]| && dst[at..at + r] == xs[i]
    ensures Reached(sd, track[i + 1], s2) && s2 == d + Joined(xs, i + 1)
  {
    s2 := s + xs[i];
    NextLink(blocks, used, d, xs, i, s);
    assert DecodableAt(track[i], dst, to[i], room[i], |xs[i]|, used[i]);
    r := DecodeNext(sd, blocks[i], dst, at, n, track[i], s, used[i], xs[i]);
  }

  method DecodeOut(sd: StreamDecode, blocks: seq<seq<byte>>, dst: array<byte>, to: seq<nat>, room: seq<nat>, i: nat,
                   ghost track: seq<Standing>, ghost used: seq<nat>, ghost d: seq<byte>, ghost xs: seq<seq<byte>>, ghost s: seq<byte>)
    returns (out: seq<byte>, ghost s2: seq<byte>)
    requires IsStream(blocks, used, d, xs) && Decodable(track, dst, to, room, xs, used)
    requires i < |xs| && Reached(sd, track[i], s) && s == d + Joined(xs, i)
    modifies sd, dst
    ensures out == xs[i] && Reached(sd, track[i + 1], s2) && s2 == d + Joined(xs, i + 1)
  {
    var r;
    var at := to[i];
    r, s2 := DecodePart(sd, blocks, dst, at, room[i], i, track, to, room, used, d, xs, s);
    out := dst[at..at + r];
  }

  /** Any run of LZ4_decompress_safe_continue: every block gives its part of the stream. */
  method DecompressRun(sd: StreamDecode, blocks: seq<seq<byte>>, dst: array<byte>, to: seq<nat>, room: seq<nat>,
                       ghost track: seq<Standing>, ghost used: seq<nat>, ghost d: seq<byte>, ghost xs: seq<seq<byte>>)
    returns (outs: seq<seq<byte>>)
    requires IsStream(blocks, used, d, xs) && Decodable(track, dst, to, room, xs, used)
    requires Reached(sd, track[0], d)
    modifies sd, dst
    ensures outs == xs
  {
    outs := [];
    ghost var s := d;
    while |outs| < |blocks|
      invariant |outs| <= |blocks| && outs == xs[..|outs|]
      invariant Reached(sd, track[|outs|], s) && s == d + Joined(xs, |outs|)
      decreases |blocks| - |outs|
    {
      var i := |outs|;
      var out;
      out, s := DecodeOut(sd, blocks, dst, to, room, i, track, used, d, xs, s);
      OneMore(xs, i);
      outs := outs + [out];
    }
  }

  lemma OneMore(xs: seq<seq<byte>>, k: nat)
    requires k < |xs|
    ensures xs[..k] + [xs[k]] == xs[..k + 1]
  {
  }

  lemma NextLink(blocks: seq<seq<byte>>, used: seq<nat>, d: seq<byte>, xs: seq<seq<byte>>, i: nat, s: seq<byte>)
    requires IsStream(blocks, used, d, xs) && i < |xs| && s == d + Joined(xs, i)
    ensures Links(blocks[i], s, used[i], xs[i]) && s + xs[i] == d + Joined(xs, i + 1)
  {
    ChainedAt(blocks, used, d, xs, |xs|, i);
  }

  /** Parts that are decoded in step with the places of their source: where a source
      follows the one before, so does its part; and a part spares as much of what was
      decoded right before the one before it as its source does. */
  ghost predicate InStep(at: seq<nat>, to: seq<nat>, room: seq<nat>, xs: seq<seq<byte>>) {
    && |at| == |to| == |room| == |xs|
    && forall i :: 0 < i < |xs| ==> StepIn(at, to, room, xs, i)
  }

  ghost predicate StepIn(at: seq<nat>, to: seq<nat>, room: seq<nat>, xs: seq<seq<byte>>, i: nat)
    requires i < |at| == |to| == |room| == |xs|
  {
    || to[i] == EndOf(to, xs, 0, i)
    || (at[i] != EndOf(at, xs, 0, i)
        && Spared(EndOf(to, xs, 0, i), Behind(at, xs, 0, 0, i), to[i], room[i]) >= Reach(at, xs, 0, 0, i))
  }

  /** A decoder that knows nothing, with its parts to come. */
  ghost predicate Begins(track: seq<Standing>, dst: array<byte>, to: seq<nat>, room: seq<nat>, xs: seq<seq<byte>>) {
    Tracks(track, dst, to, room, xs) && track[0] == Standing(Place(dst, 0, 0, dst, 0, 0), 0)
  }

  /** In step, the decoder remembers what the compressor could build on. */
  lemma {:induction false} InStepKnows(track: seq<Standing>, dst: array<byte>, at: seq<nat>, to: seq<nat>, room: seq<nat>,
                                       xs: seq<seq<byte>>, i: nat)
    requires Begins(track, dst, to, room, xs) && InStep(at, to, room, xs) && 0 < i <= |xs|
    requires forall j :: 0 <= j < |xs| ==> xs[j] != []
    ensures track[i].place.Rolls(dst, EndOf(to, xs, 0, i)) && Behind(at, xs, 0, 0, i) <= track[i].place.prefixSize
    decreases i
  {
    var k := i - 1;
    assert track[k + 1] == track[k].Next(dst, to[k], room[k], |xs[k]|) && xs[k] != [];
    if k > 0 {
      InStepKnows(track, dst, at, to, room, xs, k);
      assert StepIn(at, to, room, xs, k);
    }
  }

  lemma InStepDecodable(track: seq<Standing>, dst: array<byte>, at: seq<nat>, to: seq<nat>, room: seq<nat>,
                        xs: seq<seq<byte>>, used: seq<nat>)
    requires Begins(track, dst, to, room, xs) && InStep(at, to, room, xs)
    requires |xs| == |used| && InReach(used, at, xs, 0, 0)
    requires forall i :: 0 <= i < |xs| ==> xs[i] != [] && |xs[i]| <= room[i] && to[i] + room[i] <= dst.Length
    ensures Decodable(track, dst, to, room, xs, used)
  {
    forall i | 0 <= i < |xs|
      ensures DecodableAt(track[i], dst, to[i], room[i], |xs[i]|, used[i])
    {
      if i > 0 {
        InStepKnows(track, dst, at, to, room, xs, i);
        assert StepIn(at, to, room, xs, i);
        SparedMore(EndOf(to, xs, 0, i), Behind(at, xs, 0, 0, i), track[i].place.prefixSize, to[i], room[i]);
      }
    }
  }

  /** A stream through one buffer on each side, or two in turn, or any number, whatever
      is written over. */
  method StreamInStep(state: Stream, mem: seq<byte>, at: seq<nat>, xs: seq<seq<byte>>, capacity: seq<nat>, acceleration: int,
                      hash: seq<byte> -> nat, dst: array<byte>, to: seq<nat>, room: seq<nat>)
    returns (ok: bool, outs: seq<seq<byte>>)
    requires state.Initialised() && Sources(at, xs, |mem|, 0, 0) && |capacity| == |xs| && InStep(at, to, room, xs)
    requires forall i :: 0 <= i < |xs| ==> xs[i] != [] && |xs[i]| <= room[i] && to[i] + room[i] <= dst.Length
    modifies state, state.hashTable, dst
    ensures (forall i :: 0 <= i < |xs| ==> capacity[i] >= CompressBound(|xs[i]|)) ==> ok
    ensures ok ==> outs == xs
  {
    var blocks;
    ghost var used;
    ok, blocks, used := CompressAnew(state, mem, at, xs, capacity, acceleration, hash);
    outs := [];
    if ok {
      ghost var track := Track(Standing(Place(dst, 0, 0, dst, 0, 0), 0), dst, to, room, xs);
      InStepDecodable(track, dst, at, to, room, xs, used);
      outs := DecodeAnew(blocks, dst, to, room, track, used, xs);
    }
  }

  /** Two ring buffers of the same layout, when the decoder is told the size of each part:
      wherever the sources wrap around, what they are not written over is not decoded over. */
  method StreamThroughRings(state: Stream, mem: seq<byte>, at: seq<nat>, xs: seq<seq<byte>>, capacity: seq<nat>,
                            acceleration: int, hash: seq<byte> -> nat, dst: array<byte>)
    returns (ok: bool, outs: seq<seq<byte>>)
    requires state.Initialised() && Sources(at, xs, |mem|, 0, 0) && |capacity| == |xs| && dst.Length == |mem|
    requires forall i :: 0 <= i < |xs| ==> xs[i] != []
    modifies state, state.hashTable, dst
    ensures (forall i :: 0 <= i < |xs| ==> capacity[i] >= CompressBound(|xs[i]|)) ==> ok
    ensures ok ==> outs == xs
  {
    var room := seq(|xs|, i requires 0 <= i < |xs| => |xs[i]|);
    assert forall i :: 0 < i < |xs| ==> StepIn(at, at, room, xs, i);
    ok, outs := StreamInStep(state, mem, at, xs, capacity, acceleration, hash, dst, at, room);
  }

  lemma StartsReached(sd: StreamDecode, d: seq<byte>)
    requires sd.Valid() && sd.Prefix() == d
    ensures Reached(sd, Standing(sd.State(), 0), d)
  {
    SuffixSelf(d);
    assert [] + d == d;
  }

  /** LZ4_createStreamDecode, and a run. */
  method DecodeAnew(blocks: seq<seq<byte>>, dst: array<byte>, to: seq<nat>, room: seq<nat>,
                    ghost track: seq<Standing>, ghost used: seq<nat>, ghost xs: seq<seq<byte>>)
    returns (outs: seq<seq<byte>>)
    requires IsStream(blocks, used, [], xs) && Decodable(track, dst, to, room, xs, used)
    requires track[0] == Standing(Place(dst, 0, 0, dst, 0, 0), 0)
    modifies dst
    ensures outs == xs
  {
    var sd := new StreamDecode(dst, 0, 0);
    StartsReached(sd, []);
    outs := DecompressRun(sd, blocks, dst, to, room, track, used, [], xs);
  }

  // ---------------------------------------------------------------------
  // A ring buffer of the decoder's own
  // ---------------------------------------------------------------------

  /** Parts of at most `most` bytes lie behind each other in a ring of `size` bytes; where
      there is no room for `most` bytes, it resumes at the beginning. */
  ghost predicate Ring(to: seq<nat>, room: seq<nat>, xs: seq<seq<byte>>, size: nat, most: nat) {
    && |to| == |room| == |xs|
    && forall i :: 0 <= i < |xs| ==>
         1 <= |xs[i]| <= room[i] == most && to[i] == if EndOf(to, xs, 0, i) + most <= size then EndOf(to, xs, 0, i) else 0
  }

  /** All of the stream lies before `p`, or enough of it at the end of the ring. */
  ghost predicate RingAt(p: Standing, dst: array<byte>, size: nat, most: nat, end: nat, total: nat) {
    var q := p.place;
    && q.prefixBuf == dst && q.prefixEnd == q.prefixSize == end
    && (end == total
        || (end > 0 && q.extBuf == dst && q.extStart == 0 && size < q.extDictSize + most
            && (end < DISTANCE_MAX ==> q.extDictSize <= p.intact + end + most)))
  }

  lemma RingOn(p: Standing, q: Standing, dst: array<byte>, size: nat, most: nat, end: nat, total: nat, at: nat, n: nat, more: nat)
    requires RingAt(p, dst, size, most, end, total) && 1 <= n <= most && size >= DISTANCE_MAX + 2 * most
    requires at == (if end + most <= size then end else 0) && q == p.Next(dst, at, most, n) && more == total + n
    ensures RingAt(q, dst, size, most, at + n, more)
  {
  }

  lemma RingKnows(p: Standing, dst: array<byte>, size: nat, most: nat, end: nat, total: nat, at: nat)
    requires RingAt(p, dst, size, most, end, total) && 1 <= most && size >= DISTANCE_MAX + 2 * most
    requires at == if end + most <= size then end else 0
    ensures p.place.KnownSize(dst, at, most, p.intact) >= Min(total, DISTANCE_MAX)
  {
  }

  lemma {:induction false} RingFollows(track: seq<Standing>, dst: array<byte>, to: seq<nat>, room: seq<nat>, xs: seq<seq<byte>>,
                                       size: nat, most: nat, i: nat)
    requires Begins(track, dst, to, room, xs) && Ring(to, room, xs, size, most) && i <= |xs|
    requires size >= DISTANCE_MAX + 2 * most
    ensures RingAt(track[i], dst, size, most, EndOf(to, xs, 0, i), |Joined(xs, i)|)
    decreases i
  {
    if i > 0 {
      var k := i - 1;
      RingFollows(track, dst, to, room, xs, size, most, k);
      assert track[k + 1] == track[k].Next(dst, to[k], room[k], |xs[k]|);
      RingOn(track[k], track[i], dst, size, most, EndOf(to, xs, 0, k), |Joined(xs, k)|, to[k], |xs[k]|, |Joined(xs, i)|);
    }
  }

  lemma RingDecodable(track: seq<Standing>, dst: array<byte>, to: seq<nat>, room: seq<nat>, xs: seq<seq<byte>>,
                      size: nat, most: nat, blocks: seq<seq<byte>>, used: seq<nat>)
    requires Begins(track, dst, to, room, xs) && Ring(to, room, xs, size, most)
    requires DISTANCE_MAX + 2 * most <= size <= dst.Length && IsStream(blocks, used, [], xs)
    ensures Decodable(track, dst, to, room, xs, used)
  {
    forall i | 0 <= i < |xs|
      ensures DecodableAt(track[i], dst, to[i], room[i], |xs[i]|, used[i])
    {
      ChainedAt(blocks, used, [], xs, |xs|, i);
      RingFollows(track, dst, to, room, xs, size, most, i);
      RingKnows(track[i], dst, size, most, EndOf(to, xs, 0, i), |Joined(xs, i)|, to[i]);
    }
  }

  /** A ring buffer that holds the reach of an offset and two parts more serves any stream,
      wherever its sources stood. */
  method DecompressThroughRing(blocks: seq<seq<byte>>, dst: array<byte>, to: seq<nat>, room: seq<nat>, most: nat,
                               ghost used: seq<nat>, ghost xs: seq<seq<byte>>)
    returns (outs: seq<seq<byte>>)
    requires IsStream(blocks, used, [], xs) && Ring(to, room, xs, dst.Length, most)
    requires DISTANCE_MAX + 2 * most <= dst.Length
    modifies dst
    ensures outs == xs
  {
    ghost var track := Track(Standing(Place(dst, 0, 0, dst, 0, 0), 0), dst, to, room, xs);
    RingDecodable(track, dst, to, room, xs, dst.Length, most, blocks, used);
    outs := DecodeAnew(blocks, dst, to, room, track, used, xs);
  }

  // ---------------------------------------------------------------------
  // Blocks decoded one behind the other
  // ---------------------------------------------------------------------

  /** The decoder's place after `done` bytes behind each other from `start` on, when it
      began with a dictionary of `n0` bytes at `d0`. */
  ghost predicate Follows(s: Standing, dictBuf: array<byte>, d0: nat, n0: nat, dst: array<byte>, start: nat, done: nat) {
    var p := s.place;
    var adjacent := dictBuf == dst && d0 + n0 == start;
    var dictIsExternal := p.extBuf == dictBuf && p.extStart == d0 && p.extDictSize == n0;
    if done == 0 then
      && p.prefixBuf == dictBuf && p.prefixEnd == d0 + n0 && p.prefixSize == n0
      && (p.extDictSize == 0 || (dictIsExternal && !adjacent))
    else
      && p.prefixBuf == dst && p.prefixEnd == start + done
      && (if adjacent then p.prefixSize == n0 + done && p.extDictSize == 0
          else p.prefixSize == done && ((p.extDictSize == 0 && n0 == 0) || (dictIsExternal && s.intact == n0)))
  }

  lemma FollowsOn(p: Standing, q: Standing, dictBuf: array<byte>, d0: nat, n0: nat, dst: array<byte>, start: nat, done: nat,
                  at: nat, room: nat, r: nat, more: nat)
    requires Follows(p, dictBuf, d0, n0, dst, start, done) && at == start + done && r <= room
    requires dictBuf == dst ==> d0 + n0 <= start || at + room <= d0
    requires q == p.Next(dst, at, room, r) && more == done + r
    ensures Follows(q, dictBuf, d0, n0, dst, start, more)
  {
  }

  /** It has room, and it knows all of the stream, or as much as any offset reaches. */
  lemma FollowsKnows(p: Standing, dictBuf: array<byte>, d0: nat, n0: nat, dst: array<byte>, start: nat, done: nat, room: nat)
    requires Follows(p, dictBuf, d0, n0, dst, start, done)
    requires dictBuf == dst ==> d0 + n0 <= start || start + done + room <= d0
    ensures p.place.KnownSize(dst, start + done, room, p.intact) >= Min(n0 + done, DISTANCE_MAX)
    ensures !p.place.Rolls(dst, start + done) ==> p.place.SparedPrefix(dst, start + done, room) == p.place.prefixSize
  {
  }

  /** The places of parts behind each other, and the room they have up to `end`. */
  ghost predicate Stacked(to: seq<nat>, room: seq<nat>, xs: seq<seq<byte>>, start: nat, end: nat) {
    && |to| == |room| == |xs|
    && forall i :: 0 <= i < |xs| ==> to[i] == start + |Joined(xs, i)| && to[i] + room[i] == end
  }

  lemma {:induction false} StackedFollows(track: seq<Standing>, dictBuf: array<byte>, d0: nat, n0: nat, dst: array<byte>, start: nat,
                                          end: nat, to: seq<nat>, room: seq<nat>, xs: seq<seq<byte>>, i: nat)
    requires Stacked(to, room, xs, start, end) && Tracks(track, dst, to, room, xs) && i <= |xs|
    requires track[0] == Standing(Place(dictBuf, d0 + n0, n0, dictBuf, 0, 0), 0)
    requires dictBuf == dst ==> d0 + n0 <= start || end <= d0
    requires start + |Whole(xs)| <= end
    ensures Follows(track[i], dictBuf, d0, n0, dst, start, |Joined(xs, i)|)
    decreases i
  {
    if i > 0 {
      var k := i - 1;
      StackedFollows(track, dictBuf, d0, n0, dst, start, end, to, room, xs, k);
      JoinedFits(xs, k, |xs|);
      assert track[k + 1] == track[k].Next(dst, to[k], room[k], |xs[k]|);
      FollowsOn(track[k], track[i], dictBuf, d0, n0, dst, start, |Joined(xs, k)|, to[k], room[k], |xs[k]|, |Joined(xs, i)|);
    }
  }

  lemma StackedDecodable(track: seq<Standing>, dictBuf: array<byte>, d0: nat, n0: nat, dst: array<byte>, start: nat, end: nat,
                         to: seq<nat>, room: seq<nat>, xs: seq<seq<byte>>, blocks: seq<seq<byte>>, used: seq<nat>, d: seq<byte>)
    requires Stacked(to, room, xs, start, end) && Tracks(track, dst, to, room, xs)
    requires track[0] == Standing(Place(dictBuf, d0 + n0, n0, dictBuf, 0, 0), 0)
    requires dictBuf == dst ==> d0 + n0 <= start || end <= d0
    requires IsStream(blocks, used, d, xs) && |d| == n0 && start + |Whole(xs)| <= end <= dst.Length
    ensures Decodable(track, dst, to, room, xs, used)
  {
    forall i | 0 <= i < |xs|
      ensures DecodableAt(track[i], dst, to[i], room[i], |xs[i]|, used[i])
    {
      ChainedAt(blocks, used, d, xs, |xs|, i);
      JoinedFits(xs, i, |xs|);
      StackedFollows(track, dictBuf, d0, n0, dst, start, end, to, room, xs, i);
      FollowsKnows(track[i], dictBuf, d0, n0, dst, start, |Joined(xs, i)|, room[i]);
    }
  }

  lemma {:induction false} JoinedFits(xs: seq<seq<byte>>, i: nat, k: nat)
    requires i < k <= |xs|
    ensures |Joined(xs, i)| + |xs[i]| <= |Joined(xs, k)|
    decreases k
  {
    if i < k - 1 {
      JoinedFits(xs, i, k - 1);
    }
  }

  /** `t` stands in `m` from `start` to `at`; outside of `start` to `end` it is as `a`. */
  ghost predicate LaidOut(m: seq<byte>, start: nat, at: nat, end: nat, a: seq<byte>, t: seq<byte>) {
    && start <= at <= end <= |m| == |a| && |t| == at - start && Same(t, 0, m, start, |t|)
    && Same(a, 0, m, 0, start) && Same(a, end, m, end, |m| - end)
  }

  lemma LaidOutIs(m: seq<byte>, start: nat, at: nat, end: nat, a: seq<byte>, t: seq<byte>)
    ensures LaidOut(m, start, at, end, a, t) <==> start <= at <= end && Kept(a, m, start, end) && m[start..at] == t
  {
    if start <= at <= end <= |m| == |a| && |t| == at - start {
      SameSlices(t, 0, m, start, |t|);
      SameSlices(a, 0, m, 0, start);
      SameSlices(a, end, m, end, |m| - end);
      assert t[0..0 + |t|] == t && a[end..end + (|m| - end)] == a[end..] && m[end..end + (|m| - end)] == m[end..];
      assert a[0..0 + start] == a[..start] && m[0..0 + start] == m[..start] && m[start..start + |t|] == m[start..at];
    }
  }

  lemma LaidNext(start: nat, at: nat, room: nat, end: nat, a: seq<byte>, c: seq<byte>, m: seq<byte>, t: seq<byte>, x: seq<byte>,
                 r: nat, next: nat)
    requires LaidOut(c, start, at, end, a, t) && at + room == end && Kept(c, m, at, at + room)
    requires r == |x| <= room && next == at + r && m[at..at + r] == x
    ensures LaidOut(m, start, next, end, a, t + x)
  {
    LaidOutIs(c, start, at, end, a, t);
    KeptOutside(c, m, at, end, start, at);
    assert m[start..next] == m[start..at] + m[at..next];
    KeptTwice(a, c, m, start, end, at, end);
    LaidOutIs(m, start, next, end, a, t + x);
  }

  method DecodeStacked(sd: StreamDecode, blocks: seq<seq<byte>>, dst: array<byte>, start: nat, at: nat, end: nat, i: nat,
                       ghost track: seq<Standing>, ghost to: seq<nat>, ghost room: seq<nat>, ghost used: seq<nat>,
                       ghost d: seq<byte>, ghost xs: seq<seq<byte>>, ghost s: seq<byte>, ghost a: seq<byte>, ghost t: seq<byte>)
    returns (next: nat, ghost s2: seq<byte>, ghost t2: seq<byte>)
    requires IsStream(blocks, used, d, xs) && Decodable(track, dst, to, room, xs, used) && Stacked(to, room, xs, start, end)
    requires i < |xs| && Reached(sd, track[i], s) && s == d + Joined(xs, i)
    requires LaidOut(dst[..], start, at, end, a, t) && t == Joined(xs, i)
    modifies sd, dst
    ensures Reached(sd, track[i + 1], s2) && s2 == d + Joined(xs, i + 1)
    ensures LaidOut(dst[..], start, next, end, a, t2) && t2 == Joined(xs, i + 1)
  {
    ghost var c := dst[..];
    StackedAt(to, room, xs, start, end, i, at);
    var r;
    var n := end - at;
    r, s2 := DecodePart(sd, blocks, dst, at, n, i, track, to, room, used, d, xs, s);
    next, t2 := at + r, t + xs[i];
    LaidNext(start, at, n, end, a, c, dst[..], t, xs[i], r, next);
  }

  lemma StackedAt(to: seq<nat>, room: seq<nat>, xs: seq<seq<byte>>, start: nat, end: nat, i: nat, at: nat)
    requires Stacked(to, room, xs, start, end) && i < |xs| && at == start + |Joined(xs, i)|
    ensures at == to[i] && end - at == room[i]
  {
  }

  method DecodeStack(sd: StreamDecode, blocks: seq<seq<byte>>, dst: array<byte>, start: nat, end: nat,
                     ghost track: seq<Standing>, ghost to: seq<nat>, ghost room: seq<nat>, ghost used: seq<nat>,
                     ghost d: seq<byte>, ghost xs: seq<seq<byte>>, ghost a: seq<byte>, ghost t0: seq<byte>)
    returns (at: nat, ghost t: seq<byte>)
    requires IsStream(blocks, used, d, xs) && Decodable(track, dst, to, room, xs, used) && Stacked(to, room, xs, start, end)
    requires Reached(sd, track[0], d) && LaidOut(dst[..], start, start, end, a, t0) && t0 == Joined(xs, 0)
    modifies sd, dst
    ensures LaidOut(dst[..], start, at, end, a, t) && t == Joined(xs, |xs|)
  {
    ghost var s := d;
    t := t0;
    at := start;
    var i := 0;
    while i < |blocks|
      invariant 0 <= i <= |blocks|
      invariant Reached(sd, track[i], s) && s == d + Joined(xs, i)
      invariant LaidOut(dst[..], start, at, end, a, t) && t == Joined(xs, i)
    {
      at, s, t := DecodeStacked(sd, blocks, dst, start, at, end, i, track, to, room, used, d, xs, s, a, t);
      i := i + 1;
    }
  }

  /** LZ4_setStreamDecode and a run of LZ4_decompress_safe_continue: the blocks of a
      stream, decoded one behind the other, are the stream. */
  method DecompressStreamed(blocks: seq<seq<byte>>, dictBuf: array<byte>, d0: nat, n0: nat, dst: array<byte>, start: nat,
                            end: nat, ghost used: seq<nat>, ghost d: seq<byte>, ghost xs: seq<seq<byte>>)
    returns (at: nat)
    requires d0 + n0 <= dictBuf.Length && d == dictBuf[d0..d0 + n0]
    requires dictBuf == dst ==> d0 + n0 <= start || end <= d0
    requires IsStream(blocks, used, d, xs) && start + |Whole(xs)| <= end <= dst.Length
    modifies dst
    ensures start <= at <= end && Kept(old(dst[..]), dst[..], start, end) && dst[start..at] == Whole(xs)
  {
    ghost var to, room := Stack(xs, start, end);
    var sd := new StreamDecode(dictBuf, d0, n0);
    ghost var a := dst[..];
    ghost var track := Track(Standing(sd.State(), 0), dst, to, room, xs);
    StartsReached(sd, d);
    StackedDecodable(track, dictBuf, d0, n0, dst, start, end, to, room, xs, blocks, used, d);
    LaidOutIs(a, start, start, end, a, []);
    ghost var t;
    at, t := DecodeStack(sd, blocks, dst, start, end, track, to, room, used, d, xs, a, []);
    LaidOutIs(dst[..], start, at, end, a, t);
  }

  lemma {:induction false} Stack(xs: seq<seq<byte>>, start: nat, end: nat) returns (to: seq<nat>, room: seq<nat>)
    requires start + |Whole(xs)| <= end
    ensures Stacked(to, room, xs, start, end)
  {
    forall i | 0 <= i < |xs|
      ensures start + |Joined(xs, i)| <= end
    {
      JoinedFits(xs, i, |xs|);
    }
    to := seq(|xs|, i requires 0 <= i < |xs| => start + |Joined(xs, i)|);
    room := seq(|xs|, i requires 0 <= i < |xs| => end - (start + |Joined(xs, i)|));
  }

  /** A stream, compressed and decoded again, its dictionary at hand on both sides. */
  method StreamAndBack(mem: seq<byte>, dict: nat, dictSize: nat, at: seq<nat>, xs: seq<seq<byte>>, capacity: seq<nat>,
                       acceleration: int, hash: seq<byte> -> nat, room: nat)
    returns (ok: bool, done: nat, out: array<byte>)
    requires dict + dictSize <= |mem| && |capacity| == |xs| && Sources(at, xs, |mem|, dict + dictSize, dictSize)
    requires |Whole(xs)| <= room
    ensures (forall i :: 0 <= i < |xs| ==> capacity[i] >= CompressBound(|xs[i]|)) ==> ok
    ensures ok ==> done <= out.Length && out[..done] == Whole(xs)
  {
    var blocks;
    ghost var used;
    ok, blocks, used := CompressWithDictionary(mem, dict, dictSize, at, xs, capacity, acceleration, hash, dict + dictSize);
    out, done := new byte[room], 0;
    if ok {
      var d := mem[dict..dict + dictSize];
      var dictBuf := new byte[dictSize](i requires 0 <= i < dictSize => d[i]);
      assert dictBuf[0..0 + dictSize] == d;
      done := DecompressStreamed(blocks, dictBuf, 0, dictSize, out, 0, room, used, d, xs);
    }
  }
}
