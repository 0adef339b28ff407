/** What a session comes to, whatever the schedule. */
module SessionRuns {
  import opened Bytes
  import opened Codecs
  import opened CompressorState
  import opened CompressStream
  import opened Wire
  import T = Transfer
  import L = Listing
  import Paths
  import opened Runs
  import opened Machines
  import opened Sessions

  // ---------------------------------------------------------------------
  // A file from one party to the other
  // ---------------------------------------------------------------------

  /** What the sender of a file puts on the wire, before the checksum. */
  function DataWire(x: Host, format: Format, rest: seq<byte>): seq<byte>
    decreases |rest|
  {
    var piece := Piece(x, format, rest);
    if piece == [] then [] else Packed(x, format, piece) + DataWire(x, format, rest[|piece|..])
  }

  /** The sender reads all of the file, and the compressor accepts it. */
  predicate Sendable(format: Format, file: seq<byte>) {
    format.Plain? || file == [] || 1 <= format.blockSize <= MAX_INPUT_SIZE
  }

  lemma SumInPieces(sum: Word, a: seq<byte>, b: seq<byte>)
    ensures SumAfter(SumAfter(sum, a), b) == SumAfter(sum, a + b)
  {
    SumOfBoth(a, b);
    ReduceOnce(sum + Sum(a), Sum(b), (sum + Sum(a)) / TWO64);
  }

  lemma ReduceOnce(m: nat, n: nat, k: nat)
    requires k == m / TWO64
    ensures (m % TWO64 + n) % TWO64 == (m + n) % TWO64
  {
    var r := m % TWO64 + n;
    assert m + n == TWO64 * k + r;
    assert (m + n) / TWO64 == k + r / TWO64;
  }

  lemma SumOfRest(sum: Word, rest: seq<byte>, n: nat)
    requires n <= |rest|
    ensures SumAfter(SumAfter(sum, rest[..n]), rest[n..]) == SumAfter(sum, rest) && rest[..n] + rest[n..] == rest
  {
    assert rest[..n] + rest[n..] == rest;
    SumInPieces(sum, rest[..n], rest[n..]);
  }

  lemma RestOfWhole(sum: Word, rest: seq<byte>, n: nat, written: seq<byte>)
    requires n <= |rest|
    ensures SumAfter(SumAfter(sum, rest[..n]), rest[n..]) == SumAfter(sum, rest)
    ensures written + rest[..n] + rest[n..] == written + rest
  {
    SumOfRest(sum, rest, n);
    T.Appended(written, rest[..n], rest[n..]);
  }

  lemma TransmitsPiece(x: Host, y: Host, format: Format, rest: seq<byte>, sum: Word,
                       other: Side<State>, ab: seq<byte>, ba: seq<byte>)
    requires Sendable(format, rest) && Piece(x, format, rest) != []
    ensures var piece := Piece(x, format, rest);
            Leads(Session(x, y), Pair(At(Transmit(format, rest, sum)), other, ab, ba),
                  Pair(At(Transmit(format, rest[|piece|..], SumAfter(sum, piece))), other, ab + Packed(x, format, piece), ba))
  {
    var piece := Piece(x, format, rest);
    Sends(Party(x), Party(y), Transmit(format, rest, sum), other, ab, ba, Packed(x, format, piece));
  }

  lemma TransmitsTrailer(x: Host, y: Host, format: Format, rest: seq<byte>, sum: Word, total: Word, trailer: seq<byte>,
                         other: Side<State>, ab: seq<byte>, ba: seq<byte>, out: seq<byte>)
    requires Sendable(format, rest) && Piece(x, format, rest) == [] && total == SumAfter(sum, rest)
    requires trailer == BigEndian(total, 8) && out == ab + (DataWire(x, format, rest) + trailer)
    ensures Leads(Session(x, y), Pair(At(Transmit(format, rest, sum)), other, ab, ba),
                  Pair(At(AfterTransmit(x, total)), other, out, ba))
  {
    SumOfNothing(sum, rest);
    assert DataWire(x, format, rest) + trailer == trailer;
    SendsTrailer(x, y, format, rest, sum, other, ab, ba);
  }

  lemma SendsTrailer(x: Host, y: Host, format: Format, rest: seq<byte>, sum: Word, other: Side<State>, ab: seq<byte>, ba: seq<byte>)
    requires Piece(x, format, rest) == []
    ensures Leads(Session(x, y), Pair(At(Transmit(format, rest, sum)), other, ab, ba),
                  Pair(At(AfterTransmit(x, sum)), other, ab + BigEndian(sum, 8), ba))
  {
    Sends(Party(x), Party(y), Transmit(format, rest, sum), other, ab, ba, BigEndian(sum, 8));
  }

  lemma SumOfNothing(sum: Word, rest: seq<byte>)
    requires rest == []
    ensures SumAfter(sum, rest) == sum
  {
  }

  lemma FirstOnWire(x: Host, format: Format, rest: seq<byte>, ab: seq<byte>, trailer: seq<byte>)
    requires Piece(x, format, rest) != []
    ensures var msg := Packed(x, format, Piece(x, format, rest));
            var wire2 := DataWire(x, format, rest[|Piece(x, format, rest)|..]) + trailer;
            DataWire(x, format, rest) + trailer == msg + wire2 && ab + (DataWire(x, format, rest) + trailer) == ab + msg + wire2
  {
    var msg := Packed(x, format, Piece(x, format, rest));
    var data := DataWire(x, format, rest[|Piece(x, format, rest)|..]);
    T.Appended(msg, data, trailer);
    T.Appended(ab, msg, data + trailer);
  }

  lemma {:induction false} TransmitsAll(x: Host, y: Host, format: Format, rest: seq<byte>, sum: Word, total: Word,
                                        trailer: seq<byte>, other: Side<State>, ab: seq<byte>, ba: seq<byte>, out: seq<byte>)
    requires Sendable(format, rest) && total == SumAfter(sum, rest) && trailer == BigEndian(total, 8)
    requires out == ab + (DataWire(x, format, rest) + trailer)
    ensures Leads(Session(x, y), Pair(At(Transmit(format, rest, sum)), other, ab, ba),
                  Pair(At(AfterTransmit(x, total)), other, out, ba))
    decreases |rest|
  {
    var piece := Piece(x, format, rest);
    if piece == [] {
      TransmitsTrailer(x, y, format, rest, sum, total, trailer, other, ab, ba, out);
    } else {
      TransmitsPiece(x, y, format, rest, sum, other, ab, ba);
      SumOfRest(sum, rest, |piece|);
      FirstOnWire(x, format, rest, ab, trailer);
      TransmitsAll(x, y, format, rest[|piece|..], SumAfter(sum, piece), total, trailer, other,
                   ab + Packed(x, format, piece), ba, out);
      LeadsOn(Session(x, y), Pair(At(Transmit(format, rest, sum)), other, ab, ba),
              Pair(At(Transmit(format, rest[|piece|..], SumAfter(sum, piece))), other, ab + Packed(x, format, piece), ba),
              Pair(At(AfterTransmit(x, total)), other, out, ba));
    }
  }

  lemma {:induction false} PlainWire(x: Host, format: Format, rest: seq<byte>)
    requires format.Plain?
    ensures DataWire(x, format, rest) == rest
    decreases |rest|
  {
    var piece := Piece(x, format, rest);
    if piece != [] {
      PlainWire(x, format, rest[|piece|..]);
      assert piece + rest[|piece|..] == rest;
    }
  }

  lemma PackedPiece(x: Host, format: Format, piece: seq<byte>)
    requires Sound(x.codec) && format.Compressed? && 1 <= |piece| <= format.blockSize <= MAX_INPUT_SIZE
    ensures Packed(x, format, piece) == Frame(x.codec.encode(piece))
    ensures T.FramedPiece(x.codec.encode(piece), piece, format.blockSize)
  {
    assert CompressesTo(piece, x.codec.encode(piece));
    Bounds(|piece|, format.blockSize);
  }

  lemma FrameOnWire(x: Host, format: Format, rest: seq<byte>, blocks: seq<seq<byte>>, pieces: seq<seq<byte>>,
                    file: seq<byte>, wire: seq<byte>)
    returns (blocks2: seq<seq<byte>>, pieces2: seq<seq<byte>>, behind: seq<byte>)
    requires Sound(x.codec) && format.Compressed? && Sendable(format, rest) && T.Framed(blocks, pieces, format.blockSize)
    requires file == Concat(pieces) + rest && wire == Frames(blocks) + DataWire(x, format, rest)
    requires Piece(x, format, rest) != []
    ensures T.Framed(blocks2, pieces2, format.blockSize) && |behind| < |rest| && Sendable(format, behind)
    ensures file == Concat(pieces2) + behind && wire == Frames(blocks2) + DataWire(x, format, behind)
  {
    var piece := Piece(x, format, rest);
    var b := x.codec.encode(piece);
    behind, blocks2, pieces2 := rest[|piece|..], blocks + [b], pieces + [piece];
    PackedPiece(x, format, piece);
    T.FramedMore(blocks, pieces, format.blockSize, b, piece);
    FramesMore(blocks, b);
    ConcatMore(pieces, piece);
    T.Appended(Frames(blocks), Frame(b), DataWire(x, format, behind));
    T.Appended(Concat(pieces), piece, behind);
    assert piece + behind == rest;
  }

  lemma {:induction false} FramesWire(x: Host, format: Format, rest: seq<byte>, blocks: seq<seq<byte>>, pieces: seq<seq<byte>>,
                                      file: seq<byte>, wire: seq<byte>)
    returns (blocks2: seq<seq<byte>>, pieces2: seq<seq<byte>>)
    requires Sound(x.codec) && format.Compressed? && Sendable(format, rest) && T.Framed(blocks, pieces, format.blockSize)
    requires file == Concat(pieces) + rest && wire == Frames(blocks) + DataWire(x, format, rest)
    ensures T.Framed(blocks2, pieces2, format.blockSize) && Concat(pieces2) == file && Frames(blocks2) == wire
    decreases |rest|
  {
    if Piece(x, format, rest) == [] {
      blocks2, pieces2 := blocks, pieces;
    } else {
      var behind;
      blocks2, pieces2, behind := FrameOnWire(x, format, rest, blocks, pieces, file, wire);
      blocks2, pieces2 := FramesWire(x, format, behind, blocks2, pieces2, file, wire);
    }
  }

  /** What the methods that transmit a file promise to write. */
  ghost predicate Transmitted(format: Format, file: seq<byte>, out: seq<byte>) {
    match format
    case Plain => out == file + Trailer(file)
    case Compressed(blockSize) =>
      exists blocks, pieces :: FramedAs(blocks, pieces, blockSize, file) && out == Frames(blocks) + Trailer(file)
  }

  ghost predicate FramedAs(blocks: seq<seq<byte>>, pieces: seq<seq<byte>>, blockSize: nat, file: seq<byte>) {
    T.Framed(blocks, pieces, blockSize) && Concat(pieces) == file
  }

  /** The sender as a machine keeps the promise of these methods. */
  lemma WireIsTransmitted(x: Host, format: Format, file: seq<byte>)
    requires Sound(x.codec) && Sendable(format, file)
    ensures Transmitted(format, file, DataWire(x, format, file) + Trailer(file))
  {
    if format.Plain? {
      PlainWire(x, format, file);
    } else {
      var wire := DataWire(x, format, file);
      assert Concat([]) + file == file && Frames([]) + wire == wire;
      var blocks, pieces := FramesWire(x, format, file, [], [], file, wire);
      assert FramedAs(blocks, pieces, format.blockSize, file);
    }
  }

  /** A trailer that says `sum`. */
  predicate Says(trailer: seq<byte>, sum: Word) {
    |trailer| == 8 && FromBigEndian(trailer) == sum
  }

  lemma TrailerSays(sum: Word)
    ensures Says(BigEndian(sum, 8), sum)
  {
    Powers();
    BigEndianBack(sum, 8);
  }

  /** The checksum behind a file that is complete. */
  lemma ReadsTrailer(x: Host, y: Host, format: Format, sum: Word, trailer: seq<byte>, path: seq<byte>, written: seq<byte>,
                     other: Side<State>, ba: seq<byte>)
    requires Says(trailer, sum)
    ensures Leads(Session(x, y), Pair(other, At(ReadFile(format, 0, sum, path, written)), trailer, ba),
                  Pair(other, At(AfterReadFile(y, AsInt64(sum), path, written)), [], ba))
  {
    assert trailer + [] == trailer;
    ReceivesB(Party(x), Party(y), ReadFile(format, 0, sum, path, written), other, ba, trailer, []);
  }

  lemma ReadsPlainPiece(x: Host, y: Host, format: Format, rest: seq<byte>, sum: Word, path: seq<byte>, written: seq<byte>,
                        other: Side<State>, ba: seq<byte>, tail: seq<byte>, n: nat)
    requires format.Plain? && rest != [] && |rest| < TWO64 && n == Min(|rest|, T.IO_BUFSIZE)
    ensures Leads(Session(x, y), Pair(other, At(ReadFile(format, |rest|, sum, path, written)), rest + tail, ba),
                  Pair(other, At(ReadFile(format, |rest[n..]|, SumAfter(sum, rest[..n]), path, written + rest[..n])),
                       rest[n..] + tail, ba))
  {
    assert rest[..n] + rest[n..] == rest;
    T.Appended(rest[..n], rest[n..], tail);
    var reading, after := ReadFile(format, |rest|, sum, path, written),
                          ReadFile(format, |rest[n..]|, SumAfter(sum, rest[..n]), path, written + rest[..n]);
    assert Act(y, reading) == Recv(n) && Next(y, reading, rest[..n]) == after;
    ReceivesB(Party(x), Party(y), reading, other, ba, rest[..n], rest[n..] + tail);
  }

  lemma {:induction false} ReadsPlain(x: Host, y: Host, format: Format, rest: seq<byte>, sum: Word, path: seq<byte>,
                                      written: seq<byte>, other: Side<State>, ba: seq<byte>,
                                      total: Word, whole: seq<byte>, trailer: seq<byte>)
    requires format.Plain? && |rest| < TWO64
    requires total == SumAfter(sum, rest) && whole == written + rest && Says(trailer, total)
    ensures Leads(Session(x, y), Pair(other, At(ReadFile(format, |rest|, sum, path, written)), rest + trailer, ba),
                  Pair(other, At(AfterReadFile(y, AsInt64(total), path, whole)), [], ba))
    decreases |rest|
  {
    if rest == [] {
      assert rest + trailer == trailer && written + rest == written;
      ReadsTrailer(x, y, format, sum, trailer, path, written, other, ba);
    } else {
      var n := Min(|rest|, T.IO_BUFSIZE);
      var piece, rest2, sum2 := rest[..n], rest[n..], SumAfter(sum, rest[..n]);
      ReadsPlainPiece(x, y, format, rest, sum, path, written, other, ba, trailer, n);
      RestOfWhole(sum, rest, n, written);
      ReadsPlain(x, y, format, rest2, sum2, path, written + piece, other, ba, total, whole, trailer);
      LeadsOn(Session(x, y), Pair(other, At(ReadFile(format, |rest|, sum, path, written)), rest + trailer, ba),
              Pair(other, At(ReadFile(format, |rest2|, sum2, path, written + piece)), rest2 + trailer, ba),
              Pair(other, At(AfterReadFile(y, AsInt64(total), path, whole)), [], ba));
    }
  }

  /** The length of a block: it fits the buffer the block is received in. */
  lemma ReadsLength(x: Host, y: Host, format: Format, b: seq<byte>, remaining: nat, sum: Word, path: seq<byte>,
                    written: seq<byte>, other: Side<State>, ba: seq<byte>, tail: seq<byte>)
    requires format.Compressed? && remaining > 0 && |b| <= CompressBound(format.blockSize) < 0x8000_0000
    ensures Leads(Session(x, y), Pair(other, At(ReadFile(format, remaining, sum, path, written)), Frame(b) + tail, ba),
                  Pair(other, At(ReadBlock(format, |b|, remaining, sum, path, written)), b + tail, ba))
  {
    Powers();
    BigEndianBack(|b|, 4);
    T.Appended(BigEndian(|b|, 4), b, tail);
    ReceivesB(Party(x), Party(y), ReadFile(format, remaining, sum, path, written), other, ba, BigEndian(|b|, 4), b + tail);
  }

  /** The block itself. */
  lemma ReadsBlock(x: Host, y: Host, format: Format, piece: seq<byte>, remaining: nat, sum: Word, path: seq<byte>,
                   written: seq<byte>, other: Side<State>, ba: seq<byte>, tail: seq<byte>)
    requires format.Compressed? && Sound(x.codec) && Sound(y.codec)
    requires 1 <= |piece| <= format.blockSize <= MAX_INPUT_SIZE && |piece| <= remaining < TWO64
    ensures var b := x.codec.encode(piece);
            Leads(Session(x, y), Pair(other, At(ReadBlock(format, |b|, remaining, sum, path, written)), b + tail, ba),
                  Pair(other, At(ReadFile(format, remaining - |piece|, SumAfter(sum, piece), path, written + piece)), tail, ba))
  {
    var b := x.codec.encode(piece);
    CodecRoundTrip(x.codec, y.codec, piece, format.blockSize);
    ReceivesB(Party(x), Party(y), ReadBlock(format, |b|, remaining, sum, path, written), other, ba, b, tail);
  }

  lemma ReadsPiece(x: Host, y: Host, format: Format, piece: seq<byte>, remaining: nat, sum: Word, path: seq<byte>,
                   written: seq<byte>, other: Side<State>, ba: seq<byte>, tail: seq<byte>,
                   wire: seq<byte>, left: nat, sum2: Word, written2: seq<byte>)
    requires format.Compressed? && Sound(x.codec) && Sound(y.codec)
    requires 1 <= |piece| <= format.blockSize <= MAX_INPUT_SIZE && |piece| <= remaining < TWO64
    requires wire == Packed(x, format, piece) + tail
    requires left == remaining - |piece| && sum2 == SumAfter(sum, piece) && written2 == written + piece
    ensures Leads(Session(x, y), Pair(other, At(ReadFile(format, remaining, sum, path, written)), wire, ba),
                  Pair(other, At(ReadFile(format, left, sum2, path, written2)), tail, ba))
  {
    var b := x.codec.encode(piece);
    CodecRoundTrip(x.codec, y.codec, piece, format.blockSize);
    ReadsLength(x, y, format, b, remaining, sum, path, written, other, ba, tail);
    ReadsBlock(x, y, format, piece, remaining, sum, path, written, other, ba, tail);
    LeadsOn(Session(x, y), Pair(other, At(ReadFile(format, remaining, sum, path, written)), Packed(x, format, piece) + tail, ba),
            Pair(other, At(ReadBlock(format, |b|, remaining, sum, path, written)), b + tail, ba),
            Pair(other, At(ReadFile(format, remaining - |piece|, SumAfter(sum, piece), path, written + piece)), tail, ba));
  }

  lemma ReadsFirst(x: Host, y: Host, format: Format, rest: seq<byte>, sum: Word, path: seq<byte>, written: seq<byte>,
                   other: Side<State>, ba: seq<byte>, total: Word, whole: seq<byte>, trailer: seq<byte>, wire: seq<byte>)
    returns (rest2: seq<byte>, sum2: Word, written2: seq<byte>, wire2: seq<byte>)
    requires format.Compressed? && Sound(x.codec) && Sound(y.codec) && Sendable(format, rest) && |rest| < TWO64 && rest != []
    requires total == SumAfter(sum, rest) && whole == written + rest && wire == DataWire(x, format, rest) + trailer
    ensures |rest2| < |rest| && Sendable(format, rest2) && wire2 == DataWire(x, format, rest2) + trailer
    ensures total == SumAfter(sum2, rest2) && whole == written2 + rest2
    ensures Leads(Session(x, y), Pair(other, At(ReadFile(format, |rest|, sum, path, written)), wire, ba),
                  Pair(other, At(ReadFile(format, |rest2|, sum2, path, written2)), wire2, ba))
  {
    var piece := Piece(x, format, rest);
    rest2, sum2, written2 := rest[|piece|..], SumAfter(sum, piece), written + piece;
    wire2 := DataWire(x, format, rest2) + trailer;
    FirstOnWire(x, format, rest, [], trailer);
    ReadsPiece(x, y, format, piece, |rest|, sum, path, written, other, ba, wire2, wire, |rest2|, sum2, written2);
    RestOfWhole(sum, rest, |piece|, written);
  }

  lemma {:induction false} ReadsCompressed(x: Host, y: Host, format: Format, rest: seq<byte>, sum: Word, path: seq<byte>,
                                           written: seq<byte>, other: Side<State>, ba: seq<byte>,
                                           total: Word, whole: seq<byte>, trailer: seq<byte>, wire: seq<byte>)
    requires format.Compressed? && Sound(x.codec) && Sound(y.codec) && Sendable(format, rest) && |rest| < TWO64
    requires total == SumAfter(sum, rest) && whole == written + rest && Says(trailer, total)
    requires wire == DataWire(x, format, rest) + trailer
    ensures Leads(Session(x, y), Pair(other, At(ReadFile(format, |rest|, sum, path, written)), wire, ba),
                  Pair(other, At(AfterReadFile(y, AsInt64(total), path, whole)), [], ba))
    decreases |rest|
  {
    if rest == [] {
      assert wire == trailer && written + rest == written;
      ReadsTrailer(x, y, format, sum, trailer, path, written, other, ba);
    } else {
      var rest2, sum2, written2, wire2 := ReadsFirst(x, y, format, rest, sum, path, written, other, ba, total, whole, trailer, wire);
      ReadsCompressed(x, y, format, rest2, sum2, path, written2, other, ba, total, whole, trailer, wire2);
      LeadsOn(Session(x, y), Pair(other, At(ReadFile(format, |rest|, sum, path, written)), wire, ba),
              Pair(other, At(ReadFile(format, |rest2|, sum2, path, written2)), wire2, ba),
              Pair(other, At(AfterReadFile(y, AsInt64(total), path, whole)), [], ba));
    }
  }

  lemma ReadsAll(x: Host, y: Host, format: Format, file: seq<byte>, sum: Word, path: seq<byte>, other: Side<State>,
                 ba: seq<byte>, total: Word, trailer: seq<byte>)
    requires Sound(x.codec) && Sound(y.codec) && Sendable(format, file) && |file| < TWO64
    requires total == SumAfter(sum, file) && Says(trailer, total)
    ensures Leads(Session(x, y), Pair(other, At(ReadFile(format, |file|, sum, path, [])), DataWire(x, format, file) + trailer, ba),
                  Pair(other, At(AfterReadFile(y, AsInt64(total), path, file)), [], ba))
  {
    assert [] + file == file;
    if format.Plain? {
      PlainWire(x, format, file);
      ReadsPlain(x, y, format, file, sum, path, [], other, ba, total, file, trailer);
    } else {
      ReadsCompressed(x, y, format, file, sum, path, [], other, ba, total, file, trailer, DataWire(x, format, file) + trailer);
    }
  }

  lemma MovesFile(x: Host, y: Host, format: Format, file: seq<byte>, sum: Word, path: seq<byte>, ba: seq<byte>,
                  total: Word, trailer: seq<byte>)
    requires Sound(x.codec) && Sound(y.codec) && Sendable(format, file) && |file| < TWO64
    requires total == SumAfter(sum, file) && trailer == BigEndian(total, 8)
    ensures Leads(Session(x, y), Pair(At(Transmit(format, file, sum)), At(ReadFile(format, |file|, sum, path, [])), [], ba),
                  Pair(At(AfterTransmit(x, total)), At(AfterReadFile(y, AsInt64(total), path, file)), [], ba))
  {
    var wire, reader := DataWire(x, format, file) + trailer, At(ReadFile(format, |file|, sum, path, []));
    assert [] + wire == wire;
    TrailerSays(total);
    TransmitsAll(x, y, format, file, sum, total, trailer, reader, [], ba, wire);
    ReadsAll(x, y, format, file, sum, path, At(AfterTransmit(x, total)), ba, total, trailer);
    LeadsOn(Session(x, y), Pair(At(Transmit(format, file, sum)), reader, [], ba), Pair(At(AfterTransmit(x, total)), reader, wire, ba),
            Pair(At(AfterTransmit(x, total)), At(AfterReadFile(y, AsInt64(total), path, file)), [], ba));
  }

  lemma FromZero(file: seq<byte>)
    requires 255 * |file| < TWO63
    ensures SumAfter(0, file) == Sum(file) == AsInt64(SumAfter(0, file)) < TWO63
  {
  }

  /** A file from `x` to `y`, sent and then received. */
  lemma FileMoves(x: Host, y: Host, format: Format, file: seq<byte>, path: seq<byte>, ba: seq<byte>)
    requires Sound(x.codec) && Sound(y.codec) && Sendable(format, file) && 255 * |file| < TWO63
    ensures Leads(Session(x, y), Pair(At(Transmit(format, file, 0)), At(ReadFile(format, |file|, 0, path, [])), [], ba),
                  Pair(At(AfterTransmit(x, Sum(file))), At(AfterReadFile(y, Sum(file), path, file)), [], ba))
  {
    FromZero(file);
    MovesFile(x, y, format, file, 0, path, ba, Sum(file), BigEndian(Sum(file), 8));
  }

  /** A block of no bytes for a buffer of no bytes. */
  lemma ReadsEmptyBlock(x: Host, y: Host, format: Format, file: seq<byte>, path: seq<byte>, sum: Word,
                        length: seq<byte>, tail: seq<byte>, other: Side<State>, ba: seq<byte>)
    requires Sound(y.codec) && format == Compressed(0) && 0 < |file| < TWO64
    requires |length| == 4 && FromBigEndian(length) == 0
    ensures Leads(Session(x, y), Pair(other, At(ReadFile(format, |file|, sum, path, [])), length + tail, ba),
                  Pair(other, At(AfterReadFile(y, -1, path, [])), tail, ba))
  {
    var s, block := ReadFile(format, |file|, sum, path, []), ReadBlock(format, 0, |file|, sum, path, []);
    NoRoomToDecode(y.codec, []);
    ReceivesB(Party(x), Party(y), s, other, ba, length, tail);
    ReadsNothing(x, y, block, path, tail, other, ba);
    LeadsOn(Session(x, y), Pair(other, At(s), length + tail, ba), Pair(other, At(block), tail, ba),
            Pair(other, At(AfterReadFile(y, -1, path, [])), tail, ba));
  }

  lemma ReadsNothing(x: Host, y: Host, block: State, path: seq<byte>, tail: seq<byte>, other: Side<State>, ba: seq<byte>)
    requires block.ReadBlock? && block.size == 0 && block.format == Compressed(0) && block.path == path && block.written == []
    requires y.codec.decode([], 0) == []
    ensures Leads(Session(x, y), Pair(other, At(block), tail, ba), Pair(other, At(AfterReadFile(y, -1, path, [])), tail, ba))
  {
    assert [] + tail == tail;
    ReceivesB(Party(x), Party(y), block, other, ba, [], tail);
  }

  /** With a block size of zero the sender reads nothing, and the receiver takes half of
      the checksum for the length of a block. */
  lemma NothingRead(x: Host, y: Host, format: Format, file: seq<byte>, path: seq<byte>, sum: Word, ba: seq<byte>)
    requires Sound(y.codec) && format == Compressed(0) && 0 < |file| < TWO64 && sum < 0x1_0000_0000
    ensures Leads(Session(x, y), Pair(At(Transmit(format, file, sum)), At(ReadFile(format, |file|, sum, path, [])), [], ba),
                  Pair(At(AfterTransmit(x, sum)), At(AfterReadFile(y, -1, path, [])), BigEndian(sum, 8)[4..], ba))
  {
    var s, t := Transmit(format, file, sum), ReadFile(format, |file|, sum, path, []);
    var wire, sent := BigEndian(sum, 8), At(AfterTransmit(x, sum));
    var length, tail := wire[..4], wire[4..];
    assert [] + wire == wire == length + tail;
    LowWord(sum);
    Sends(Party(x), Party(y), s, At(t), [], ba, wire);
    ReadsEmptyBlock(x, y, format, file, path, sum, length, tail, sent, ba);
    LeadsOn(Session(x, y), Pair(At(s), At(t), [], ba), Pair(sent, At(t), wire, ba),
            Pair(sent, At(AfterReadFile(y, -1, path, [])), tail, ba));
  }

  lemma LowWord(n: nat)
    requires n < 0x1_0000_0000
    ensures FromBigEndian(BigEndian(n, 8)[..4]) == 0
  {
    var n2, n3, n4 := n / 256 / 256, n / 256 / 256 / 256, n / 256 / 256 / 256 / 256;
    assert BigEndian(n, 8)[..7] == BigEndian(n / 256, 7);
    assert BigEndian(n / 256, 7)[..6] == BigEndian(n2, 6);
    assert BigEndian(n2, 6)[..5] == BigEndian(n3, 5);
    assert BigEndian(n3, 5)[..4] == BigEndian(n4, 4);
    assert BigEndian(n, 8)[..4] == BigEndian(n4, 4);
    Powers();
    BigEndianBack(0, 4);
  }

  /** With a block size above the limit the compressor fails, and the connection ends. */
  lemma NothingCompressed(x: Host, y: Host, format: Format, file: seq<byte>, path: seq<byte>, sum: Word, ba: seq<byte>)
    requires format.Compressed? && format.blockSize > MAX_INPUT_SIZE && 0 < |file| < TWO64
    ensures Leads(Session(x, y), Pair(At(Transmit(format, file, sum)), At(ReadFile(format, |file|, sum, path, [])), [], ba),
                  Pair(At(Done(-1, Nothing)), At(AfterReadFile(y, -1, path, [])), [], ba))
  {
    var s, t := Transmit(format, file, sum), ReadFile(format, |file|, sum, path, []);
    var nothing: seq<byte> := [];
    assert nothing + nothing == nothing;
    Sends(Party(x), Party(y), s, At(t), [], ba, []);
    MissesB(Party(x), Party(y), t, At(Done(-1, Nothing)), [], ba, 4);
    LeadsOn(Session(x, y), Pair(At(s), At(t), [], ba), Pair(At(Done(-1, Nothing)), At(t), [], ba),
            Pair(At(Done(-1, Nothing)), At(AfterReadFile(y, -1, path, [])), [], ba));
  }

  // ---------------------------------------------------------------------
  // The request
  // ---------------------------------------------------------------------

  function Header(c: Command, pathLength: nat): (s: seq<byte>)
    ensures |s| == if c.send then 15 else 7
  {
    if c.send then SendHeader(c.flags, pathLength, c.blockSize, c.length) else RecvHeader(c.flags, pathLength, c.blockSize)
  }

  function Message(c: Command, path: seq<byte>): seq<byte> {
    [if c.send then COMMAND_SEND else COMMAND_RECV] + Header(c, |path|) + path
  }

  predicate Encodable(c: Command, path: seq<byte>) {
    |path| < 0x1_0000 && c.blockSize < 0x1_0000_0000 && c.length < TWO64 && (!c.send ==> c.length == 0)
  }

  lemma HeaderBack(c: Command, path: seq<byte>)
    requires Encodable(c, path)
    ensures ParseHeader(c.send, Header(c, |path|)) == (c, |path|)
  {
    var x := Header(c, |path|);
    Powers();
    BigEndianBack(|path|, 2);
    BigEndianBack(c.blockSize, 4);
    BigEndianBack(c.length, 8);
    assert x[1..3] == BigEndian(|path|, 2) && x[3..7] == BigEndian(c.blockSize, 4);
    assert c.send ==> x[7..15] == BigEndian(c.length, 8);
  }

  function Handler(d: Disk, c: Command, path: seq<byte>): State {
    if c.send then HandleSend(d, c, path) else HandleRecv(d, c, path)
  }

  /** A server reads the command, unless the path is too long for its buffer. */
  lemma ReadsCommand(c: Host, s: Host, command: Command, path: seq<byte>, client: Side<State>)
    requires s.role.Server? && Encodable(command, path)
    ensures Leads(Session(c, s), Pair(client, At(AwaitCommand), Message(command, path), []),
                  if |path| < L.PATH_MAX then Pair(client, At(Handler(s.role.disk, command, path)), [], [])
                  else Pair(client, At(Done(-1, Nothing)), path, []))
  {
    var m, header := Session(c, s), Header(command, |path|);
    var code := [if command.send then COMMAND_SEND else COMMAND_RECV];
    var p0, p1 := Pair(client, At(AwaitCommand), Message(command, path), []), Pair(client, At(AwaitHeader(command.send)), header + path, []);
    T.Appended(code, header, path);
    HeaderBack(command, path);
    ReceivesB(Party(c), Party(s), AwaitCommand, client, [], code, header + path);
    ReceivesB(Party(c), Party(s), AwaitHeader(command.send), client, [], header, path);
    var p2 := Pair(client, At(Next(s, AwaitHeader(command.send), header)), path, []);
    LeadsOn(m, p0, p1, p2);
    if |path| < L.PATH_MAX {
      assert path + [] == path;
      ReceivesB(Party(c), Party(s), AwaitPath(command, |path|), client, [], path, []);
      LeadsOn(m, p0, p2, Pair(client, At(Handler(s.role.disk, command, path)), [], []));
    }
  }

  /** What the client asks for, and the state in which it waits for the answer. */
  function CommandOf(r: Role): Command
    requires r.Client?
  {
    match r.job
    case SendFile(file) => Command(true, r.flags, r.blockSize, |file|)
    case SendMkdir => Command(true, CREATE_DIRECTORY, 0, 0)
    case Receive => Command(false, r.flags, r.blockSize, 0)
    case Download => Command(false, r.flags, r.blockSize, 0)
  }

  function Waiting(r: Role): State
    requires r.Client?
  {
    match r.job
    case SendFile(_) => AwaitResponse
    case SendMkdir => AwaitMade
    case Receive => AwaitConfirmation
    case Download => AwaitConfirmation
  }

  /** The request arrives. */
  lemma Asks(c: Host, s: Host)
    requires c.role.Client? && s.role.Server? && Encodable(CommandOf(c.role), SentPath(c.role.path))
    ensures var path := SentPath(c.role.path);
            Leads(Session(c, s), Start(c),
                  if |path| < L.PATH_MAX then Pair(At(Waiting(c.role)), At(Handler(s.role.disk, CommandOf(c.role), path)), [], [])
                  else Pair(At(Waiting(c.role)), At(Done(-1, Nothing)), path, []))
  {
    var command, path, client := CommandOf(c.role), SentPath(c.role.path), At(Waiting(c.role));
    var msg := Message(command, path);
    assert [] + msg == msg;
    Sends(Party(c), Party(s), Request(c), At(AwaitCommand), [], [], msg);
    ReadsCommand(c, s, command, path, client);
    LeadsOn(Session(c, s), Start(c), Pair(client, At(AwaitCommand), msg, []),
            if |path| < L.PATH_MAX then Pair(client, At(Handler(s.role.disk, command, path)), [], [])
            else Pair(client, At(Done(-1, Nothing)), path, []));
  }
}