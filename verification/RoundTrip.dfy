/** Compressor and decoders together. */
module RoundTrip {
  import opened Bytes
  import opened BlockFormat
  import opened Stretches
  import opened CompressorState
  import opened CompressStream
  import opened Decompress
  import opened UnsafeDecoder

  // ---------------------------------------------------------------------
  // Blocks and their histories
  // ---------------------------------------------------------------------

  /** A block made on a part of the stream is one on all of it. */
  lemma EncodesOnMore(b: seq<byte>, h: seq<byte>, s: seq<byte>, x: seq<byte>)
    requires Encodes(b, h, x) && Suffix(h, s)
    ensures Encodes(b, s, x)
  {
    var g := SuffixSplit(h, s);
    assert Decode(b, g + h) == Some(g + h + x);
    EncodesOn(b, g + h, x);
  }

  /** The last 65535 bytes of the stream are history enough. */
  lemma EncodesOnRecent(b: seq<byte>, s: seq<byte>, k: seq<byte>, x: seq<byte>)
    requires Encodes(b, s, x) && Suffix(k, s) && (k == s || |k| >= DISTANCE_MAX)
    ensures Encodes(b, k, x)
  {
    if k != s {
      var g := SuffixSplit(k, s);
      EncodesHere(b, s, x);
      WellFormedBlockHistory(b, g, k);
      assert g + (k + x) == s + x;
      Cancel(g, Decode(b, k).value, k + x);
      EncodesOn(b, k, x);
    }
  }

  /** A block that is decoded on its history comes out as it went in. */
  lemma DecodesBack(b: seq<byte>, h: seq<byte>, x: seq<byte>, room: seq<byte>, r: int)
    requires Encodes(b, h, x) && Yields(b, h, false, room, r)
    requires |x| <= |room| && (room != [] || b == [0])
    ensures r == |x| && room[..r] == x
  {
    EncodesHere(b, h, x);
    Cancel(h, room[..r], x);
  }

  /** And a partial decode yields as much of it as was asked for. */
  lemma DecodesPrefix(b: seq<byte>, src: seq<byte>, h: seq<byte>, x: seq<byte>, room: seq<byte>, r: int)
    requires Encodes(b, h, x) && b <= src && (src == b || |room| <= |x|) && Yields(src, h, true, room, r)
    ensures r == Min(|room|, |x|) && room[..r] == x[..r]
  {
    EncodesHere(b, h, x);
    YieldsOfMore(b, src, h, room, r);
    assert (h + x)[..|h| + r] == h + x[..r];
    Cancel(h, room[..r], x[..r]);
  }

  /** From a block that is cut short comes nothing wrong. */
  lemma DecodesCut(b: seq<byte>, src: seq<byte>, h: seq<byte>, x: seq<byte>, room: seq<byte>, r: int)
    requires Encodes(b, h, x) && src <= b && Yields(src, h, true, room, r) && r >= 0
    ensures r <= |x| && room[..r] == x[..r]
  {
    EncodesHere(b, h, x);
    YieldsOfLess(b, src, h, room, r);
    assert (h + x)[..|h| + r] == h + x[..r];
    Cancel(h, room[..r], x[..r]);
  }

  // ---------------------------------------------------------------------
  // Single blocks
  // ---------------------------------------------------------------------

  /** LZ4_compress_fast into any buffer of at least the bound, then
      LZ4_decompress_safe into any buffer of at least the source size. */
  method CompressAndDecompress(mem: seq<byte>, source: nat, n: nat, capacity: nat, acceleration: int,
                               hash: seq<byte> -> nat, room: nat)
    returns (r: nat, out: array<byte>, d: int)
    requires n <= MAX_INPUT_SIZE && source + n <= |mem|
    requires capacity >= CompressBound(n) && room >= n
    ensures 0 < r <= CompressBound(n) == n + n / 255 + 16
    ensures d == n <= out.Length && out[..n] == mem[source..source + n]
  {
    var dst := new byte[capacity];
    r := CompressFast(mem, source, dst, n, capacity, acceleration, hash);
    out := new byte[room];
    var b := dst[..r];
    d := DecompressSafe(b, out, 0, room);
    DecodesBack(b, [], mem[source..source + n], out[0..room], d);
  }

  /** LZ4_compress_destSize, then LZ4_decompress_safe into exactly the bytes that
      were consumed. */
  method FillAndDecompress(mem: seq<byte>, source: nat, n: nat, target: nat, hash: seq<byte> -> nat)
    returns (r: nat, k: nat, out: array<byte>, d: int)
    requires n <= MAX_INPUT_SIZE && source + n <= |mem| && target >= 1
    ensures 0 < r <= target && k <= n
    ensures (k < n ==> target - 1 <= r) && (target >= CompressBound(n) ==> k == n)
    ensures d == k == out.Length && out[..] == mem[source..source + k]
  {
    var dst := new byte[target];
    r, k := CompressDestSize(mem, source, dst, n, target, hash);
    out := new byte[k];
    var b := dst[..r];
    d := DecompressSafe(b, out, 0, k);
    DecodesBack(b, [], mem[source..source + k], out[0..k], d);
    assert out[0..k][..k] == out[..];
  }

  /** LZ4_decompress_safe_partial yields the longest prefix within target and capacity. There
      may be a tail behind the block, if the target is no larger than the source was. */
  method CompressAndDecompressPart(mem: seq<byte>, source: nat, n: nat, capacity: nat, hash: seq<byte> -> nat,
                                   tail: seq<byte>, target: nat, room: nat)
    returns (out: array<byte>, d: int)
    requires n <= MAX_INPUT_SIZE && source + n <= |mem| && capacity >= CompressBound(n)
    requires tail == [] || target <= n
    ensures d == Min(n, Min(target, room)) && d <= out.Length && out[..d] == mem[source..source + d]
  {
    var dst := new byte[capacity];
    var r := CompressFast(mem, source, dst, n, capacity, 1, hash);
    out := new byte[room];
    var src := dst[..r] + tail;
    d := DecompressSafePartial(src, out, 0, target, room);
    DecodesPrefix(dst[..r], src, [], mem[source..source + n], out[0..Min(target, room)], d);
    assert out[0..Min(target, room)][..d] == out[..d];
    assert mem[source..source + n][..d] == mem[source..source + d];
  }

  /** The same from only the first `k` bytes of the block: if it is not rejected, what comes
      out is how the source began. */
  method CompressAndDecompressCut(mem: seq<byte>, source: nat, n: nat, capacity: nat, hash: seq<byte> -> nat,
                                  k: nat, target: nat, room: nat)
    returns (out: array<byte>, d: int)
    requires n <= MAX_INPUT_SIZE && source + n <= |mem| && capacity >= CompressBound(n)
    ensures d >= 0 ==> d <= Min(n, Min(target, room)) && d <= out.Length && out[..d] == mem[source..source + d]
  {
    var dst := new byte[capacity];
    var r := CompressFast(mem, source, dst, n, capacity, 1, hash);
    out := new byte[room];
    var src := dst[..Min(r, k)];
    d := DecompressSafePartial(src, out, 0, target, room);
    if d >= 0 {
      assert src == dst[..r][..Min(r, k)];
      DecodesCut(dst[..r], src, [], mem[source..source + n], out[0..Min(target, room)], d);
      assert out[0..Min(target, room)][..d] == out[..d];
      assert mem[source..source + n][..d] == mem[source..source + d];
    }
  }

  /** Both decoders, on a well-formed block `src[..m]` of known decoded size: the
      same bytes, and the unsafe one tells the size of the block. */
  method DecompressTwice(src: seq<byte>, m: nat, dict: seq<byte>, size: nat)
    returns (out: array<byte>, out2: array<byte>, c: int, d: int)
    requires m <= |src| && WellFormedBlock(src[..m], dict)
    requires |Decode(src[..m], dict).value| == |dict| + size && (size > 0 || src[..m] == [0])
    ensures c == m && d == size
    ensures out[..] == out2[..] && Decode(src[..m], dict) == Some(dict + out[..])
  {
    out := new byte[size];
    out2 := new byte[size];
    WellFormedOffsets(src[..m], 0, dict, |dict| + size);
    assert dict + out[0 - 0..0] == dict;
    c := DecompressUnsafe(src, out, 0, size, 0, dict, m);
    assert dict + out2[0 - 0..0] == dict;
    var b := src[..m];
    d := DecompressExtDict(b, out2, 0, size, false, 0, dict);
    assert out[0..size] == out[..] && out2[0..size] == out2[..];
    Cancel(dict, out2[0..size][..d], out[0..size]);
  }

  // ---------------------------------------------------------------------
  // Runs
  // ---------------------------------------------------------------------

  datatype Call = Call(source: nat, n: nat, capacity: nat, acceleration: int)

  /** What one call of a run has written, or has refused to write. */
  ghost predicate Answered(mem: seq<byte>, c: Call, b: seq<byte>)
    requires c.n <= MAX_INPUT_SIZE && c.source + c.n <= |mem|
  {
    && |b| <= c.capacity && (c.capacity >= CompressBound(c.n) ==> b != [])
    && (b != [] ==> Encodes(b, [], mem[c.source..c.source + c.n]))
  }

  /** Any run of LZ4_compress_fast_extState_fastReset on one state: every block
      stands on its own. */
  method ReuseState(mem: seq<byte>, calls: seq<Call>, hash: nat -> seq<byte> -> nat) returns (blocks: seq<seq<byte>>)
    requires forall c :: c in calls ==> c.n <= MAX_INPUT_SIZE && c.source + c.n <= |mem|
    ensures |blocks| == |calls| && forall i :: 0 <= i < |calls| ==> Answered(mem, calls[i], blocks[i])
  {
    var state := new Stream();
    blocks := [];
    var i := 0;
    while i < |calls|
      invariant 0 <= i <= |calls| && |blocks| == i && state.Initialised()
      invariant fresh(state) && fresh(state.hashTable)
      invariant forall k :: 0 <= k < i ==> Answered(mem, calls[k], blocks[k])
    {
      var c := calls[i];
      var dst := new byte[c.capacity];
      var r := state.FastExtStateFastReset(mem, c.source, dst, c.n, c.capacity, c.acceleration, hash(i));
      blocks := blocks + [dst[..r]];
      i := i + 1;
    }
  }
}
