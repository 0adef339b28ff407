/** The compressor and the decompressor as functions, for parties that are machines. */
module Codecs {
  import opened Bytes
  import opened BlockFormat
  import opened BlockEncoding
  import opened CompressorState
  import opened CompressStream
  import opened Decompress
  import opened RoundTrip

  /** The compressor and the decompressor as functions: `decode` is empty on failure. */
  datatype Codec = Codec(encode: seq<byte> -> seq<byte>, decode: (seq<byte>, nat) -> seq<byte>)

  /** What LZ4_compress_default promises when the target holds the compression bound. */
  ghost predicate CompressesTo(x: seq<byte>, b: seq<byte>) {
    1 <= |x| <= MAX_INPUT_SIZE ==> Encodes(b, [], x) && |b| <= CompressBound(|x|)
  }

  /** What LZ4_decompress_safe promises for a target of `cap` bytes. */
  ghost predicate DecompressesTo(b: seq<byte>, cap: nat, x: seq<byte>) {
    exists room: seq<byte>, r: int ::
      |room| == cap && Yields(b, [], false, room, r) && x == if r > 0 then room[..r] else []
  }

  ghost predicate Sound(c: Codec) {
    && (forall x :: CompressesTo(x, c.encode(x)))
    && (forall b, cap: nat :: DecompressesTo(b, cap, c.decode(b, cap)))
  }

  lemma Bounds(n: nat, blockSize: nat)
    requires 1 <= n <= blockSize <= MAX_INPUT_SIZE
    ensures 0 < CompressBound(n) <= CompressBound(blockSize) < 0x8000_0000
  {
  }

  lemma CodecRoundTrip(c: Codec, d: Codec, x: seq<byte>, blockSize: nat)
    requires Sound(c) && Sound(d) && 1 <= |x| <= blockSize <= MAX_INPUT_SIZE
    ensures |c.encode(x)| <= CompressBound(blockSize) < 0x8000_0000 && d.decode(c.encode(x), blockSize) == x
  {
    var b := c.encode(x);
    assert CompressesTo(x, b) && DecompressesTo(b, blockSize, d.decode(b, blockSize));
    Bounds(|x|, blockSize);
    var room: seq<byte>, r: int :|
      |room| == blockSize && Yields(b, [], false, room, r) && d.decode(b, blockSize) == if r > 0 then room[..r] else [];
    DecodesBack(b, [], x, room, r);
  }

  lemma NoRoomToDecode(c: Codec, b: seq<byte>)
    requires Sound(c)
    ensures c.decode(b, 0) == []
  {
    assert DecompressesTo(b, 0, c.decode(b, 0));
  }

  // ---------------------------------------------------------------------
  // The methods keep these promises
  // ---------------------------------------------------------------------

  /** LZ4_compress_default into a target of the compression bound. */
  method CompressDefault(x: seq<byte>, hash: seq<byte> -> nat) returns (b: seq<byte>)
    ensures CompressesTo(x, b)
  {
    if |x| > MAX_INPUT_SIZE {
      return [];
    }
    var dst := new byte[CompressBound(|x|)];
    var r := CompressFast(x, 0, dst, |x|, dst.Length, 1, hash);
    b := dst[..r];
    assert x[0..0 + |x|] == x;
  }

  /** LZ4_decompress_safe into a target of `cap` bytes. */
  method DecompressInto(b: seq<byte>, cap: nat) returns (x: seq<byte>)
    ensures DecompressesTo(b, cap, x)
  {
    var dst := new byte[cap];
    var r := DecompressSafe(b, dst, 0, cap);
    assert dst[0..0 + cap] == dst[..];
    x := if r > 0 then dst[..][..r] else [];
  }

  /** Such functions exist: a compressor may store, the decoder of the format decodes. */
  function Stored(x: seq<byte>): seq<byte> {
    Opening(x)
  }

  function Decoded(b: seq<byte>, cap: nat): seq<byte> {
    var d := Decode(b, []);
    if d.Some? && |d.value| <= cap then d.value else []
  }

  lemma StoringIsSound()
    ensures Sound(Codec(Stored, Decoded))
  {
    var c := Codec(Stored, Decoded);
    forall x
      ensures CompressesTo(x, c.encode(x))
    {
      EmitsNothing([]);
      assert [] + Opening(x) == Opening(x) && [] + x == x;
      EmitsLast([], [], [], 0, x, Opening(x));
      EncodesOn(Opening(x), [], x);
      LengthSizeIs(|x|);
    }
    forall b, cap: nat
      ensures DecompressesTo(b, cap, c.decode(b, cap))
    {
      DecodedFits(b, cap);
    }
  }

  lemma DecodedFits(b: seq<byte>, cap: nat)
    ensures DecompressesTo(b, cap, Decoded(b, cap))
  {
    var d := Decode(b, []);
    var x := Decoded(b, cap);
    var room := x + seq(cap - |x|, _ => 0 as byte);
    var r := if d.Some? && |d.value| <= cap then |x| else -1;
    assert room[..|x|] == x && [] + x == x;
    assert Yields(b, [], false, room, r);
  }
}
