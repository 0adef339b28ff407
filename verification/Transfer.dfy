/** Files over a connection, plain or in compressed blocks. Every read, write, send
    and receive moves some of the bytes asked for: at least one, any number of them. */
module Transfer {
  import opened Bytes
  import opened Codecs
  import opened CompressorState
  import opened CompressStream
  import opened Decompress
  import opened RoundTrip
  import opened Wire

  const IO_BUFSIZE := 65536

  /** One end of a connection. What the peer has sent waits in `inbox`; on a connection
      that is not reliable, any operation may fail. */
  class Socket {
    var inbox: seq<byte>
    var outbox: seq<byte>
    const reliable: bool

    constructor (inbox: seq<byte>, reliable: bool)
      ensures this.inbox == inbox && outbox == [] && this.reliable == reliable
    {
      this.inbox, outbox, this.reliable := inbox, [], reliable;
    }

    /** net_recv */
    method Recv(buf: array<byte>, at: nat, len: nat) returns (r: int)
      requires 0 < len && at + len <= buf.Length
      modifies this`inbox, buf
      ensures r <= len && (r <= 0 ==> inbox == old(inbox) && buf[..] == old(buf[..]) && (!reliable || inbox == []))
      ensures r > 0 ==> r <= |old(inbox)| && inbox == old(inbox)[r..]
      ensures r > 0 ==> buf[..at + r] == old(buf[..at]) + old(inbox)[..r] && buf[at + r..] == old(buf[at + r..])
    {
      if !reliable {
        if * {
          return -1;
        }
      }
      if inbox == [] {
        return 0;
      }
      var k: nat :| 1 <= k <= len && k <= |inbox|;
      forall i | 0 <= i < k {
        buf[at + i] := inbox[i];
      }
      assert buf[..at + k] == old(buf[..at]) + inbox[..k];
      inbox := inbox[k..];
      r := k;
    }

    /** net_send */
    method Send(buf: seq<byte>, at: nat, len: nat) returns (r: int)
      requires 0 < len && at + len <= |buf|
      modifies this`outbox
      ensures r <= len && (r <= 0 ==> outbox == old(outbox) && !reliable)
      ensures r > 0 ==> outbox == old(outbox) + buf[at..at + r]
    {
      if !reliable {
        if * {
          return -1;
        }
      }
      var k: nat :| 1 <= k <= len;
      outbox := outbox + buf[at..at + k];
      r := k;
    }

    /** net_recv_exact */
    method RecvExact(buf: array<byte>, len: nat) returns (ok: bool)
      requires len <= buf.Length
      modifies this`inbox, buf
      ensures ok ==> len <= |old(inbox)| && buf[..len] == old(inbox)[..len] && inbox == old(inbox)[len..]
      ensures reliable && len <= |old(inbox)| ==> ok
    {
      var total := 0;
      while total < len
        invariant 0 <= total <= len && total <= |old(inbox)|
        invariant inbox == old(inbox)[total..] && buf[..total] == old(inbox)[..total]
      {
        var r := Recv(buf, total, len - total);
        if r <= 0 {
          return false;
        }
        assert old(inbox)[..total] + old(inbox)[total..][..r] == old(inbox)[..total + r];
        total := total + r;
      }
      ok := true;
    }

    /** net_send_exact */
    method SendExact(buf: seq<byte>, len: nat) returns (ok: bool)
      requires len <= |buf|
      modifies this`outbox
      ensures ok ==> outbox == old(outbox) + buf[..len]
      ensures reliable ==> ok
    {
      var total := 0;
      while total < len
        invariant 0 <= total <= len && outbox == old(outbox) + buf[..total]
      {
        var r := Send(buf, total, len - total);
        if r <= 0 {
          return false;
        }
        assert buf[..total] + buf[total..total + r] == buf[..total + r];
        total := total + r;
      }
      ok := true;
    }
  }

  /** An open file. */
  class File {
    var contents: seq<byte>
    var pos: nat
    const reliable: bool

    constructor (contents: seq<byte>, reliable: bool)
      ensures this.contents == contents && pos == 0 && this.reliable == reliable
    {
      this.contents, pos, this.reliable := contents, 0, reliable;
    }

    /** isr_read: 0 at the end of the file. */
    method Read(buf: array<byte>, len: nat) returns (r: int)
      requires len <= buf.Length && pos <= |contents|
      modifies this`pos, buf
      ensures r <= len && (r <= 0 ==> pos == old(pos))
      ensures r < 0 ==> !reliable
      ensures r == 0 ==> len == 0 || pos == |contents|
      ensures r > 0 ==> pos == old(pos) + r <= |contents| && buf[..r] == contents[old(pos)..pos]
    {
      if !reliable {
        if * {
          return -1;
        }
      }
      if len == 0 || pos == |contents| {
        return 0;
      }
      var k: nat :| 1 <= k <= len && k <= |contents| - pos;
      forall i | 0 <= i < k {
        buf[i] := contents[pos + i];
      }
      assert buf[..k] == contents[pos..pos + k];
      pos := pos + k;
      r := k;
    }

    /** isr_write, at the end. */
    method Write(buf: array<byte>, at: nat, len: nat) returns (r: int)
      requires 0 < len && at + len <= buf.Length
      modifies this`contents
      ensures r <= len && (r <= 0 ==> contents == old(contents) && !reliable)
      ensures r > 0 ==> contents == old(contents) + buf[at..at + r]
    {
      if !reliable {
        if * {
          return -1;
        }
      }
      var k: nat :| 1 <= k <= len;
      contents := contents + buf[at..at + k];
      r := k;
    }

    /** isr_write_all */
    method WriteAll(buf: array<byte>, len: nat) returns (ok: bool)
      requires len <= buf.Length
      modifies this`contents
      ensures ok ==> contents == old(contents) + buf[..len]
      ensures reliable ==> ok
    {
      var written := 0;
      while written < len
        invariant 0 <= written <= len && contents == old(contents) + buf[..written]
      {
        var w := Write(buf, written, len - written);
        if w <= 0 {
          return false;
        }
        assert buf[..written] + buf[written..written + w] == buf[..written + w];
        written := written + w;
      }
      ok := true;
    }
  }

  // ---------------------------------------------------------------------
  // Plain files
  // ---------------------------------------------------------------------

  /** The rest of an open file. */
  ghost function Rest(fd: File): seq<byte>
    requires fd.pos <= |fd.contents|
    reads fd
  {
    fd.contents[fd.pos..]
  }

  /** Sends the checksum of all that was sent before. */
  method SendChecksum(sock: Socket, checksum: nat) returns (ok: bool)
    requires checksum < TWO64
    modifies sock`outbox
    ensures ok ==> sock.outbox == old(sock.outbox) + BigEndian(checksum, 8)
    ensures sock.reliable ==> ok
  {
    var be := BigEndian(checksum, 8);
    ok := sock.SendExact(be, 8);
    assert be[..8] == be;
  }

  /** The running checksum after `n` more bytes. */
  method AddToChecksum(checksum: nat, buffer: array<byte>, n: nat, ghost before: seq<byte>) returns (c: nat)
    requires n <= buffer.Length && checksum == Checksum(before)
    ensures c == Checksum(before + buffer[..n])
  {
    var data := buffer[..n];
    var count := CountByteValues(data, n);
    assert data[..n] == data;
    ChecksumOfBoth(before, data);
    c := (checksum + count) % TWO64;
  }

  lemma OneMorePiece(s: seq<byte>, a: nat, b: nat, c: nat)
    requires a <= b <= c <= |s|
    ensures s[a..b] + s[b..c] == s[a..c]
  {
  }

  lemma Appended(a: seq<byte>, b: seq<byte>, c: seq<byte>)
    ensures a + b + c == a + (b + c)
  {
  }

  /** isr_transmit_file_uncompressed: the checksum, or -1. */
  method TransmitPlain(sock: Socket, fd: File) returns (r: int, ghost done: bool)
    requires fd.pos <= |fd.contents|
    modifies sock`outbox, fd`pos
    ensures done ==>
              && sock.outbox == old(sock.outbox) + old(Rest(fd)) + Trailer(old(Rest(fd)))
              && r == AsInt64(Checksum(old(Rest(fd))))
    ensures !done ==> r == -1 && !(sock.reliable && fd.reliable)
  {
    var buffer := new byte[IO_BUFSIZE];
    ghost var out, from := sock.outbox, fd.pos;
    var checksum := 0;
    while true
      invariant from <= fd.pos <= |fd.contents|
      invariant checksum == Checksum(fd.contents[from..fd.pos]) && sock.outbox == out + fd.contents[from..fd.pos]
      decreases |fd.contents| - fd.pos
    {
      ghost var at, sent := fd.pos, fd.contents[from..fd.pos];
      var bytesRead := fd.Read(buffer, IO_BUFSIZE);
      if bytesRead < 0 {
        return -1, false;
      }
      if bytesRead == 0 {
        break;
      }
      OneMorePiece(fd.contents, from, at, fd.pos);
      checksum := AddToChecksum(checksum, buffer, bytesRead, sent);
      var ok := sock.SendExact(buffer[..bytesRead], bytesRead);
      if !ok {
        return -1, false;
      }
      Appended(out, sent, buffer[..bytesRead]);
    }
    assert fd.contents[from..fd.pos] == old(Rest(fd));
    var ok := SendChecksum(sock, checksum);
    if !ok {
      return -1, false;
    }
    r, done := AsInt64(checksum), true;
  }

  // ---------------------------------------------------------------------
  // Compressed files
  // ---------------------------------------------------------------------

  /** The blocks of a file that was read in pieces. */
  ghost predicate Framed(blocks: seq<seq<byte>>, pieces: seq<seq<byte>>, blockSize: nat)
    decreases |blocks|
  {
    && |blocks| == |pieces|
    && (blocks != [] ==>
          var k := |blocks| - 1;
          Framed(blocks[..k], pieces[..k], blockSize) && FramedPiece(blocks[k], pieces[k], blockSize))
  }

  ghost predicate FramedPiece(b: seq<byte>, x: seq<byte>, blockSize: nat) {
    1 <= |x| <= blockSize && |b| <= CompressBound(blockSize) && Encodes(b, [], x)
  }

  lemma FramedMore(blocks: seq<seq<byte>>, pieces: seq<seq<byte>>, blockSize: nat, b: seq<byte>, x: seq<byte>)
    requires Framed(blocks, pieces, blockSize) && FramedPiece(b, x, blockSize)
    ensures Framed(blocks + [b], pieces + [x], blockSize)
  {
    assert (blocks + [b])[..|blocks|] == blocks && (pieces + [x])[..|pieces|] == pieces;
  }

  /** A size_t that is passed as an int. */
  function ToInt(n: nat): int {
    if n % 0x1_0000_0000 < 0x8000_0000 then n % 0x1_0000_0000 else n % 0x1_0000_0000 - 0x1_0000_0000
  }

  /** One block: its length, and the block. */
  method SendBlock(sock: Socket, buffer: array<byte>, n: nat, blockSize: nat, compressed: array<byte>, hash: seq<byte> -> nat)
    returns (ok: bool, ghost b: seq<byte>)
    requires 1 <= n <= Min(buffer.Length, blockSize) && compressed.Length == CompressBound(blockSize) && buffer != compressed
    modifies sock`outbox, compressed
    ensures ok ==> sock.outbox == old(sock.outbox) + Frame(b) && FramedPiece(b, buffer[..n], blockSize)
    ensures ok ==> blockSize <= MAX_INPUT_SIZE
    ensures sock.reliable && blockSize <= MAX_INPUT_SIZE ==> ok
  {
    b := [];
    var source := buffer[..n];
    var size := CompressFast(source, 0, compressed, ToInt(n), compressed.Length, 1, hash);
    if size <= 0 {
      return false, [];
    }
    b := compressed[..size];
    assert source[0..0 + n] == source;
    ok := sock.SendExact(BigEndian(size, 4), 4);
    if ok {
      ghost var out := sock.outbox;
      ok := sock.SendExact(compressed[..size], size);
      assert BigEndian(size, 4)[..4] == BigEndian(size, 4) && b[..size] == b;
    }
  }

  /** One piece of the file: into the checksum, and out as a block. */
  method SendPiece(sock: Socket, buffer: array<byte>, n: nat, blockSize: nat, compressed: array<byte>,
                   hash: seq<byte> -> nat, checksum: nat,
                   ghost out: seq<byte>, ghost blocks: seq<seq<byte>>, ghost pieces: seq<seq<byte>>)
    returns (ok: bool, c: nat, ghost blocks2: seq<seq<byte>>)
    requires 1 <= n <= Min(buffer.Length, blockSize) && compressed.Length == CompressBound(blockSize) && buffer != compressed
    requires Framed(blocks, pieces, blockSize) && checksum == Checksum(Concat(pieces))
    requires sock.outbox == out + Frames(blocks)
    modifies sock`outbox, compressed
    ensures ok ==> Framed(blocks2, pieces + [buffer[..n]], blockSize) && sock.outbox == out + Frames(blocks2)
    ensures ok ==> c == Checksum(Concat(pieces + [buffer[..n]])) && blockSize <= MAX_INPUT_SIZE
    ensures sock.reliable && blockSize <= MAX_INPUT_SIZE ==> ok
  {
    c := AddToChecksum(checksum, buffer, n, Concat(pieces));
    ghost var b;
    ok, b := SendBlock(sock, buffer, n, blockSize, compressed, hash);
    blocks2 := blocks + [b];
    if ok {
      FramedMore(blocks, pieces, blockSize, b, buffer[..n]);
      FramesMore(blocks, b);
      Appended(out, Frames(blocks), Frame(b));
    }
    ConcatMore(pieces, buffer[..n]);
  }

  /** isr_transmit_file_compressed: the checksum, or -1. With a block size of 0 nothing
      is read; one above the LZ4 limit fails on the first block. */
  method TransmitCompressed(sock: Socket, fd: File, blockSize: nat, hash: seq<byte> -> nat)
    returns (r: int, ghost done: bool, ghost blocks: seq<seq<byte>>, ghost pieces: seq<seq<byte>>)
    requires fd.pos <= |fd.contents| && blockSize < 0x1_0000_0000
    modifies sock`outbox, fd`pos
    ensures done ==>
              && sock.outbox == old(sock.outbox) + Frames(blocks) + Trailer(Concat(pieces))
              && Framed(blocks, pieces, blockSize) && r == AsInt64(Checksum(Concat(pieces)))
              && Concat(pieces) == if blockSize == 0 then [] else old(Rest(fd))
    ensures !done ==> r == -1
    ensures sock.reliable && fd.reliable && blockSize <= MAX_INPUT_SIZE ==> done
  {
    var max := CompressBound(blockSize);
    var buffer, compressed := new byte[blockSize], new byte[max];
    ghost var out, from := sock.outbox, fd.pos;
    blocks, pieces := [], [];
    var checksum := 0;
    while true
      invariant from <= fd.pos <= |fd.contents|
      invariant Concat(pieces) == fd.contents[from..fd.pos] && checksum == Checksum(Concat(pieces))
      invariant Framed(blocks, pieces, blockSize) && sock.outbox == out + Frames(blocks)
      decreases |fd.contents| - fd.pos
    {
      ghost var at := fd.pos;
      var bytesRead := fd.Read(buffer, blockSize);
      if bytesRead < 0 {
        return -1, false, blocks, pieces;
      }
      if bytesRead == 0 {
        break;
      }
      var ok;
      ok, checksum, blocks := SendPiece(sock, buffer, bytesRead, blockSize, compressed, hash, checksum, out, blocks, pieces);
      if !ok {
        return -1, false, blocks, pieces;
      }
      OneMorePiece(fd.contents, from, at, fd.pos);
      ConcatMore(pieces, buffer[..bytesRead]);
      pieces := pieces + [buffer[..bytesRead]];
    }
    assert blockSize > 0 ==> fd.contents[from..fd.pos] == old(Rest(fd));
    var ok := SendChecksum(sock, checksum);
    if !ok {
      return -1, false, blocks, pieces;
    }
    r, done := AsInt64(checksum), true;
  }

  // ---------------------------------------------------------------------
  // Receiving
  // ---------------------------------------------------------------------

  /** Reads the checksum behind a file and compares it: -2 when it is another. */
  method CheckSum(sock: Socket, checksum: nat) returns (r: int)
    requires checksum < TWO64
    modifies sock`inbox
    ensures sock.reliable && |old(sock.inbox)| >= 8 ==>
              && sock.inbox == old(sock.inbox)[8..]
              && r == if FromBigEndian(old(sock.inbox)[..8]) == checksum then AsInt64(checksum) else -2
    ensures |old(sock.inbox)| < 8 ==> r == -1
    ensures r == -1 || r == -2 || (r == AsInt64(checksum) && |old(sock.inbox)| >= 8
              && FromBigEndian(old(sock.inbox)[..8]) == checksum)
  {
    var be := new byte[8];
    var ok := sock.RecvExact(be, 8);
    if !ok {
      return -1;
    }
    assert be[..8] == be[..];
    var wire := FromBigEndian(be[..]);
    r := if wire != checksum then -2 else AsInt64(checksum);
  }

  /** The data of a plain file: as much as arrives is written. */
  method ReceiveData(sock: Socket, fd: File, effectiveLength: nat) returns (ok: bool, checksum: nat)
    modifies sock`inbox, fd`contents
    ensures ok ==> effectiveLength <= |old(sock.inbox)| && sock.inbox == old(sock.inbox)[effectiveLength..]
    ensures ok ==> fd.contents == old(fd.contents) + old(sock.inbox)[..effectiveLength]
    ensures ok ==> checksum == Checksum(old(sock.inbox)[..effectiveLength])
    ensures sock.reliable && fd.reliable && effectiveLength <= |old(sock.inbox)| ==> ok
  {
    var buffer := new byte[IO_BUFSIZE];
    ghost var s, before := sock.inbox, fd.contents;
    checksum := 0;
    var remaining := effectiveLength;
    ghost var got: nat := 0;
    while remaining > 0
      invariant 0 <= remaining && got + remaining == effectiveLength && got <= |s| && sock.inbox == s[got..]
      invariant checksum == Checksum(s[..got]) && fd.contents == before + s[..got]
    {
      var toRead := if remaining < IO_BUFSIZE then remaining else IO_BUFSIZE;
      ok := sock.RecvExact(buffer, toRead);
      if !ok {
        return;
      }
      assert s[..got] + s[got..][..toRead] == s[..got + toRead];
      checksum := AddToChecksum(checksum, buffer, toRead, s[..got]);
      ok := fd.WriteAll(buffer, toRead);
      if !ok {
        return;
      }
      Appended(before, s[..got], buffer[..toRead]);
      remaining := remaining - toRead;
      got := got + toRead;
    }
    ok := true;
  }

  lemma Behind(s: seq<byte>, n: nat)
    requires n + 8 <= |s|
    ensures s[n..][..8] == s[n..n + 8] && s[n..][8..] == s[n + 8..]
  {
  }

  /** isr_receive_file_uncompressed, on anything at all that arrives. */
  method ReceivePlain(sock: Socket, fd: File, effectiveLength: nat) returns (r: int)
    modifies sock`inbox, fd`contents
    ensures var n, s := effectiveLength, old(sock.inbox);
            && (|s| < n + 8 ==> r == -1)
            && (sock.reliable && fd.reliable && |s| >= n + 8 ==>
                  && sock.inbox == s[n + 8..] && fd.contents == old(fd.contents) + s[..n]
                  && r == if FromBigEndian(s[n..n + 8]) == Checksum(s[..n]) then AsInt64(Checksum(s[..n])) else -2)
            && (r == -1 || r == -2
                || (|s| >= n + 8 && fd.contents == old(fd.contents) + s[..n]
                    && FromBigEndian(s[n..n + 8]) == Checksum(s[..n]) && r == AsInt64(Checksum(s[..n]))))
  {
    ghost var s := sock.inbox;
    var ok, checksum := ReceiveData(sock, fd, effectiveLength);
    if !ok {
      return -1;
    }
    if |s| >= effectiveLength + 8 {
      Behind(s, effectiveLength);
    }
    r := CheckSum(sock, checksum);
  }

  lemma FrameParts(b: seq<byte>, rest: seq<byte>, s: seq<byte>)
    requires |b| < 0x1_0000_0000 && s == Frame(b) + rest
    ensures |s| >= 4 + |b| && FromBigEndian(s[..4]) == |b|
    ensures s[4..] == b + rest && s[4..4 + |b|] == b && s[4 + |b|..] == rest
  {
    Powers();
    BigEndianBack(|b|, 4);
    assert s[..4] == BigEndian(|b|, 4);
    assert s[4..] == b + rest;
  }

  lemma FrameRead(s: seq<byte>, b: seq<byte>, rest: seq<byte>)
    requires |s| >= 4 && FromBigEndian(s[..4]) == |b| && s[4..] == b + rest
    ensures s == Frame(b) + rest
  {
    FromBigEndianBound(s[..4]);
    Appended(BigEndian(|b|, 4), b, rest);
  }

  /** The next block does not fit the buffer it is to be received in. */
  ghost predicate Overlong(s: seq<byte>, blockSize: nat) {
    |s| >= 4 && FromBigEndian(s[..4]) > CompressBound(blockSize)
  }

  /** The next block is cut off, or does not decode to anything. */
  ghost predicate Broken(s: seq<byte>, blockSize: nat) {
    |s| >= 4 ==>
      var size := FromBigEndian(s[..4]);
      size <= CompressBound(blockSize) && (|s| >= 4 + size ==> DecompressesTo(s[4..4 + size], blockSize, []))
  }

  /** A block that fits the buffer and decodes to `x`. */
  ghost predicate Taken(b: seq<byte>, x: seq<byte>, blockSize: nat) {
    |b| <= CompressBound(blockSize) && x != [] && DecompressesTo(b, blockSize, x)
  }

  /** What is left of `n` bytes, in 64-bit unsigned arithmetic. */
  function Left(n: nat, pieces: seq<seq<byte>>): (r: nat)
    ensures r < TWO64
  {
    (n - |Concat(pieces)|) % TWO64
  }

  lemma LeftMore(n: nat, pieces: seq<seq<byte>>, x: seq<byte>)
    ensures Left(n, pieces + [x]) == (Left(n, pieces) - |x|) % TWO64
  {
    ConcatMore(pieces, x);
    var m, k := n - |Concat(pieces)|, (n - |Concat(pieces)|) / TWO64;
    assert m - |x| == TWO64 * k + (m % TWO64 - |x|);
  }

  /** Blocks that a receiver of `n` bytes takes, one by one. */
  ghost predicate Taking(n: nat, blockSize: nat, blocks: seq<seq<byte>>, pieces: seq<seq<byte>>)
    decreases |blocks|
  {
    && |blocks| == |pieces|
    && (blocks != [] ==>
          var k := |blocks| - 1;
          Taking(n, blockSize, blocks[..k], pieces[..k]) && Left(n, pieces[..k]) != 0
          && Taken(blocks[k], pieces[k], blockSize))
  }

  lemma TakingMore(n: nat, blockSize: nat, blocks: seq<seq<byte>>, pieces: seq<seq<byte>>, b: seq<byte>, x: seq<byte>)
    requires Taking(n, blockSize, blocks, pieces) && Left(n, pieces) != 0 && Taken(b, x, blockSize)
    ensures Taking(n, blockSize, blocks + [b], pieces + [x])
  {
    assert (blocks + [b])[..|blocks|] == blocks && (pieces + [x])[..|pieces|] == pieces;
  }

  /** LZ4_decompress_safe for a capacity that is passed as an int. */
  method DecompressBlock(b: seq<byte>, dst: array<byte>, capacity: nat) returns (d: int, ghost x: seq<byte>)
    requires dst.Length == capacity && |b| <= CompressBound(capacity)
    modifies dst
    ensures DecompressesTo(b, capacity, x) && (d <= 0 ==> x == []) && (d > 0 ==> d <= capacity && x == dst[..d] && x != [])
  {
    if ToInt(capacity) < 0 {
      DecodedFits(b, capacity);
      assert Codecs.Decoded(b, capacity) == [];
      return -1, [];
    }
    d := DecompressSafe(b, dst, 0, capacity);
    ghost var room := dst[0..0 + capacity];
    x := if d > 0 then room[..d] else [];
    assert Yields(b, [], false, room, d);
    assert d > 0 ==> room[..d] == dst[..d];
  }

  datatype Ending = Block | Failed | Overran

  /** The next block: its length, the block itself, and what it decodes to. The read of a
      block longer than the buffer is not carried out. */
  method ReceiveBlock(sock: Socket, fd: File, compressedBuf: array<byte>, decompressBuf: array<byte>, blockSize: nat,
                      checksum: nat, ghost before: seq<byte>)
    returns (end: Ending, d: int, c: nat, ghost b: seq<byte>, ghost x: seq<byte>)
    requires compressedBuf != decompressBuf && checksum == Checksum(before)
    requires compressedBuf.Length == CompressBound(blockSize) && decompressBuf.Length == blockSize
    modifies sock`inbox, fd`contents, compressedBuf, decompressBuf
    ensures end == Block ==>
              && old(sock.inbox) == Frame(b) + sock.inbox && Taken(b, x, blockSize) && d == |x|
              && fd.contents == old(fd.contents) + x && c == Checksum(before + x)
    ensures end == Overran ==> Overlong(old(sock.inbox), blockSize)
    ensures end == Failed && sock.reliable && fd.reliable ==> Broken(old(sock.inbox), blockSize)
  {
    ghost var s := sock.inbox;
    end, d, c, b, x := Failed, -1, checksum, [], [];
    var be := new byte[4];
    var ok := sock.RecvExact(be, 4);
    if !ok {
      return;
    }
    assert be[..4] == be[..] == s[..4];
    var size := FromBigEndian(be[..]);
    if size > compressedBuf.Length {
      end := Overran;
      return;
    }
    ghost var behind := sock.inbox;
    ok := sock.RecvExact(compressedBuf, size);
    if !ok {
      return;
    }
    b := compressedBuf[..size];
    assert b == s[4..4 + size] && behind == b + sock.inbox;
    d, x := DecompressBlock(compressedBuf[..size], decompressBuf, blockSize);
    if d <= 0 {
      return;
    }
    c := AddToChecksum(checksum, decompressBuf, d, before);
    ok := fd.WriteAll(decompressBuf, d);
    if !ok {
      return;
    }
    FrameRead(s, b, sock.inbox);
    end := Block;
  }

  /** One turn of the loop: the next block is taken, and counted. */
  method TakeBlock(sock: Socket, fd: File, compressedBuf: array<byte>, decompressBuf: array<byte>, blockSize: nat, n: nat,
                   checksum: nat, remaining: nat, ghost s: seq<byte>, ghost before: seq<byte>,
                   ghost blocks: seq<seq<byte>>, ghost pieces: seq<seq<byte>>)
    returns (end: Ending, c: nat, left: nat, ghost blocks2: seq<seq<byte>>, ghost pieces2: seq<seq<byte>>)
    requires compressedBuf != decompressBuf
    requires compressedBuf.Length == CompressBound(blockSize) && decompressBuf.Length == blockSize
    requires Taking(n, blockSize, blocks, pieces) && s == Frames(blocks) + sock.inbox
    requires fd.contents == before + Concat(pieces) && checksum == Checksum(Concat(pieces))
    requires remaining == Left(n, pieces) != 0
    modifies sock`inbox, fd`contents, compressedBuf, decompressBuf
    ensures end == Block ==>
              && Taking(n, blockSize, blocks2, pieces2) && s == Frames(blocks2) + sock.inbox
              && fd.contents == before + Concat(pieces2) && c == Checksum(Concat(pieces2))
              && left == Left(n, pieces2) && |sock.inbox| < |old(sock.inbox)|
    ensures end == Overran ==> Overlong(old(sock.inbox), blockSize)
    ensures end == Failed && sock.reliable && fd.reliable ==> Broken(old(sock.inbox), blockSize)
  {
    var d;
    ghost var b, x;
    end, d, c, b, x := ReceiveBlock(sock, fd, compressedBuf, decompressBuf, blockSize, checksum, Concat(pieces));
    left, blocks2, pieces2 := (remaining - d) % TWO64, blocks + [b], pieces + [x];
    if end == Block {
      TakingMore(n, blockSize, blocks, pieces, b, x);
      FramesMore(blocks, b);
      ConcatMore(pieces, x);
      LeftMore(n, pieces, x);
      Appended(Frames(blocks), Frame(b), sock.inbox);
      Appended(before, Concat(pieces), x);
    }
  }

  /** The blocks of a file, until as many bytes as announced are there. `rest` is what
      stood in the inbox when the loop ended, or before the block that ended it. */
  method ReceiveBlocks(sock: Socket, fd: File, blockSize: nat, effectiveLength: nat)
    returns (end: Ending, checksum: nat, ghost blocks: seq<seq<byte>>, ghost pieces: seq<seq<byte>>, ghost rest: seq<byte>)
    requires effectiveLength < TWO64
    modifies sock`inbox, fd`contents
    ensures Taking(effectiveLength, blockSize, blocks, pieces) && old(sock.inbox) == Frames(blocks) + rest
    ensures end == Block <==> Left(effectiveLength, pieces) == 0
    ensures end == Block ==>
              && sock.inbox == rest && fd.contents == old(fd.contents) + Concat(pieces) && checksum == Checksum(Concat(pieces))
    ensures end == Overran ==> Overlong(rest, blockSize)
    ensures end == Failed && sock.reliable && fd.reliable ==> Broken(rest, blockSize)
  {
    var compressedBuf, decompressBuf := new byte[CompressBound(blockSize)], new byte[blockSize];
    ghost var before, s := fd.contents, sock.inbox;
    checksum, blocks, pieces, rest := 0, [], [], s;
    var remaining := effectiveLength;
    while remaining > 0
      invariant Taking(effectiveLength, blockSize, blocks, pieces) && s == Frames(blocks) + rest && rest == sock.inbox
      invariant fd.contents == before + Concat(pieces) && checksum == Checksum(Concat(pieces))
      invariant remaining == Left(effectiveLength, pieces)
      decreases |sock.inbox|
    {
      var c, left;
      ghost var blocks2, pieces2;
      end, c, left, blocks2, pieces2 := TakeBlock(sock, fd, compressedBuf, decompressBuf, blockSize, effectiveLength,
                                                  checksum, remaining, s, before, blocks, pieces);
      if end != Block {
        return;
      }
      checksum, remaining, blocks, pieces, rest := c, left, blocks2, pieces2, sock.inbox;
    }
    end := Block;
  }

  /** isr_receive_file_compressed, on anything at all that arrives. `overran` tells that
      it asked for a block longer than its buffer. */
  method ReceiveCompressed(sock: Socket, fd: File, blockSize: nat, effectiveLength: nat)
    returns (r: int, overran: bool, ghost blocks: seq<seq<byte>>, ghost pieces: seq<seq<byte>>, ghost rest: seq<byte>)
    requires effectiveLength < TWO64
    modifies sock`inbox, fd`contents
    ensures Taking(effectiveLength, blockSize, blocks, pieces) && old(sock.inbox) == Frames(blocks) + rest
    ensures overran ==> Left(effectiveLength, pieces) != 0 && Overlong(rest, blockSize)
    ensures sock.reliable && fd.reliable ==>
              if Left(effectiveLength, pieces) != 0 then overran || (r == -1 && Broken(rest, blockSize))
              else if |rest| < 8 then r == -1
              else
                && sock.inbox == rest[8..] && fd.contents == old(fd.contents) + Concat(pieces)
                && r == if FromBigEndian(rest[..8]) == Checksum(Concat(pieces)) then AsInt64(Checksum(Concat(pieces))) else -2
    ensures r == -1 || r == -2 ||
              (Left(effectiveLength, pieces) == 0 && |rest| >= 8 && fd.contents == old(fd.contents) + Concat(pieces)
               && FromBigEndian(rest[..8]) == Checksum(Concat(pieces)) && r == AsInt64(Checksum(Concat(pieces))))
  {
    var end, checksum;
    end, checksum, blocks, pieces, rest := ReceiveBlocks(sock, fd, blockSize, effectiveLength);
    if end != Block {
      return -1, end == Overran, blocks, pieces, rest;
    }
    overran := false;
    r := CheckSum(sock, checksum);
  }

  // ---------------------------------------------------------------------
  // The blocks of a sender
  // ---------------------------------------------------------------------

  lemma {:induction false} FramedAt(blocks: seq<seq<byte>>, pieces: seq<seq<byte>>, blockSize: nat, i: nat)
    requires Framed(blocks, pieces, blockSize) && i < |blocks|
    ensures FramedPiece(blocks[i], pieces[i], blockSize)
    decreases |blocks|
  {
    if i < |blocks| - 1 {
      FramedAt(blocks[..|blocks| - 1], pieces[..|blocks| - 1], blockSize, i);
    }
  }

  lemma {:induction false} PiecesAhead(blocks: seq<seq<byte>>, pieces: seq<seq<byte>>, blockSize: nat, i: nat)
    requires Framed(blocks, pieces, blockSize) && i <= |blocks|
    ensures |Concat(pieces[..i])| <= |Concat(pieces)|
    ensures |Concat(pieces[..i])| == |Concat(pieces)| <==> i == |blocks|
    decreases |blocks|
  {
    var k := |blocks| - 1;
    if i <= k {
      PiecesAhead(blocks[..k], pieces[..k], blockSize, i);
      assert pieces[..k][..i] == pieces[..i];
    } else {
      assert pieces[..i] == pieces;
    }
  }

  lemma NextFrame(blocks: seq<seq<byte>>, pieces: seq<seq<byte>>, blockSize: nat, i: nat, tail: seq<byte>)
    requires Framed(blocks, pieces, blockSize) && i < |blocks|
    ensures Frames(blocks[i..]) + tail == Frame(blocks[i]) + (Frames(blocks[i + 1..]) + tail)
    ensures Concat(pieces[..i + 1]) == Concat(pieces[..i]) + pieces[i]
    ensures FramedPiece(blocks[i], pieces[i], blockSize)
  {
    FramesFirst(blocks[i..]);
    assert blocks[i..][1..] == blocks[i + 1..];
    FramedAt(blocks, pieces, blockSize, i);
    assert pieces[..i + 1][..i] == pieces[..i];
  }

  /** A frame can be read in one way only. */
  lemma SameFrame(b: seq<byte>, rest: seq<byte>, b2: seq<byte>, rest2: seq<byte>)
    requires |b| < 0x1_0000_0000 && |b2| < 0x1_0000_0000 && Frame(b) + rest == Frame(b2) + rest2
    ensures b == b2 && rest == rest2
  {
    FrameParts(b, rest, Frame(b) + rest);
    FrameParts(b2, rest2, Frame(b) + rest);
  }

  /** A block of a sender decodes to its piece, and to nothing else. */
  lemma FramedDecodes(b: seq<byte>, x: seq<byte>, blockSize: nat, y: seq<byte>)
    requires FramedPiece(b, x, blockSize) && DecompressesTo(b, blockSize, y)
    ensures y == x
  {
    var room: seq<byte>, r: int :| |room| == blockSize && Yields(b, [], false, room, r) && y == if r > 0 then room[..r] else [];
    DecodesBack(b, [], x, room, r);
  }

  lemma LeftAhead(blocks: seq<seq<byte>>, pieces: seq<seq<byte>>, blockSize: nat, n: nat, k: nat)
    requires Framed(blocks, pieces, blockSize) && n == |Concat(pieces)| < TWO64 && k <= |blocks|
    ensures Left(n, pieces[..k]) == 0 <==> k == |blocks|
  {
    PiecesAhead(blocks, pieces, blockSize, k);
  }

  lemma NextInStep(blocks: seq<seq<byte>>, pieces: seq<seq<byte>>, blockSize: nat, tail: seq<byte>, n: nat, k: nat,
                   b: seq<byte>, x: seq<byte>, rest: seq<byte>, from: seq<byte>)
    requires Framed(blocks, pieces, blockSize) && blockSize <= MAX_INPUT_SIZE && n == |Concat(pieces)| < TWO64
    requires k <= |blocks| && Left(n, pieces[..k]) != 0 && Taken(b, x, blockSize)
    requires from == Frame(b) + rest && from == Frames(blocks[k..]) + tail
    ensures k < |blocks| && b == blocks[k] && x == pieces[k] && rest == Frames(blocks[k + 1..]) + tail
  {
    LeftAhead(blocks, pieces, blockSize, n, k);
    NextFrame(blocks, pieces, blockSize, k, tail);
    SameFrame(b, rest, blocks[k], Frames(blocks[k + 1..]) + tail);
    FramedDecodes(b, pieces[k], blockSize, x);
  }

  lemma PrefixMore<T>(s: seq<T>, k: nat, t: seq<T>)
    requires k < |s| && k < |t| && t[..k] == s[..k] && t[k] == s[k] && |t| == k + 1
    ensures t == s[..k + 1]
  {
  }

  /** So a receiver is never anywhere else than between two blocks of the sender. */
  lemma {:induction false} InStep(blocks: seq<seq<byte>>, pieces: seq<seq<byte>>, blockSize: nat, tail: seq<byte>, n: nat,
                                  taken: seq<seq<byte>>, got: seq<seq<byte>>, rest: seq<byte>, s: seq<byte>)
    requires Framed(blocks, pieces, blockSize) && blockSize <= MAX_INPUT_SIZE && n == |Concat(pieces)| < TWO64
    requires Taking(n, blockSize, taken, got) && s == Frames(blocks) + tail && s == Frames(taken) + rest
    ensures |taken| <= |blocks| && taken == blocks[..|taken|] && got == pieces[..|taken|]
    ensures rest == Frames(blocks[|taken|..]) + tail
    decreases |taken|
  {
    if taken == [] {
      assert blocks[0..] == blocks;
    } else {
      var k := |taken| - 1;
      var from := Frame(taken[k]) + rest;
      Appended(Frames(taken[..k]), Frame(taken[k]), rest);
      InStep(blocks, pieces, blockSize, tail, n, taken[..k], got[..k], from, s);
      NextInStep(blocks, pieces, blockSize, tail, n, k, taken[k], got[k], rest, from);
      PrefixMore(blocks, k, taken);
      PrefixMore(pieces, k, got);
    }
  }

  /** On what a sender sent, the receiver takes all blocks and stops in front of what
      follows them; it neither asks for an overlong block nor fails. */
  lemma AllTaken(blocks: seq<seq<byte>>, pieces: seq<seq<byte>>, blockSize: nat, tail: seq<byte>, n: nat,
                 taken: seq<seq<byte>>, got: seq<seq<byte>>, rest: seq<byte>)
    requires Framed(blocks, pieces, blockSize) && blockSize <= MAX_INPUT_SIZE && n == |Concat(pieces)| < TWO64
    requires Taking(n, blockSize, taken, got) && Frames(blocks) + tail == Frames(taken) + rest
    ensures Left(n, got) != 0 ==> !Overlong(rest, blockSize) && !Broken(rest, blockSize)
    ensures Left(n, got) == 0 ==> taken == blocks && got == pieces && rest == tail
  {
    InStep(blocks, pieces, blockSize, tail, n, taken, got, rest, Frames(blocks) + tail);
    var k := |taken|;
    LeftAhead(blocks, pieces, blockSize, n, k);
    if k < |blocks| {
      NextFrame(blocks, pieces, blockSize, k, tail);
      NotBroken(blocks[k], pieces[k], blockSize, Frames(blocks[k + 1..]) + tail, rest);
    } else {
      assert taken == blocks && got == pieces && blocks[k..] == [];
    }
  }

  lemma NotBroken(b: seq<byte>, x: seq<byte>, blockSize: nat, behind: seq<byte>, rest: seq<byte>)
    requires FramedPiece(b, x, blockSize) && blockSize <= MAX_INPUT_SIZE && rest == Frame(b) + behind
    ensures !Overlong(rest, blockSize) && !Broken(rest, blockSize)
  {
    FrameParts(b, behind, rest);
    if DecompressesTo(b, blockSize, []) {
      FramedDecodes(b, x, blockSize, []);
    }
  }

  // ---------------------------------------------------------------------
  // Both ends
  // ---------------------------------------------------------------------

  /** What a sender sent of a file, received. */
  method ReceiveSent(sock: Socket, copy: File, blockSize: nat, length: nat,
                     ghost file: seq<byte>, ghost blocks: seq<seq<byte>>, ghost pieces: seq<seq<byte>>)
    returns (r: int)
    requires Framed(blocks, pieces, blockSize) && blockSize <= MAX_INPUT_SIZE
    requires Concat(pieces) == file && length == |file| < TWO64
    requires sock.inbox == Frames(blocks) + Trailer(file)
    modifies sock`inbox, copy`contents
    ensures sock.reliable && copy.reliable ==>
              sock.inbox == [] && copy.contents == old(copy.contents) + file && r == AsInt64(Checksum(file))
    ensures r == -1 || r == -2 || (r == AsInt64(Checksum(file)) && copy.contents == old(copy.contents) + file)
  {
    ghost var trailer := Trailer(file);
    ghost var overran, taken, got, at;
    r, overran, taken, got, at := ReceiveCompressed(sock, copy, blockSize, length);
    AllTaken(blocks, pieces, blockSize, trailer, length, taken, got, at);
    Powers();
    BigEndianBack(Checksum(file), 8);
    assert trailer[..8] == trailer && trailer[8..] == [];
  }

  lemma Alone(a: seq<byte>, b: seq<byte>, out: seq<byte>)
    requires out == []
    ensures out + a + b == a + b
  {
  }

  /** A file in compressed blocks, from one end to the other. */
  method TransferCompressed(file: seq<byte>, blockSize: nat, hash: seq<byte> -> nat, reliable: bool)
    returns (sent: int, received: int, copy: File, rest: seq<byte>)
    requires 1 <= blockSize <= MAX_INPUT_SIZE && Sum(file) < TWO63 && |file| < TWO64
    ensures reliable ==> sent == received == Sum(file) && copy.contents == file && rest == []
    ensures sent >= 0 && received >= 0 ==> sent == received && copy.contents == file
  {
    var source := new File(file, reliable);
    var outgoing := new Socket([], reliable);
    ghost var done, blocks, pieces;
    sent, done, blocks, pieces := TransmitCompressed(outgoing, source, blockSize, hash);
    copy := new File([], reliable);
    received, rest := -1, [];
    ChecksumIsNoError(file);
    if sent >= 0 {
      assert file[0..] == file;
      Alone(Frames(blocks), Trailer(file), []);
      var incoming := new Socket(outgoing.outbox, reliable);
      received := ReceiveSent(incoming, copy, blockSize, |file|, file, blocks, pieces);
      rest := incoming.inbox;
    }
  }

  /** The data of a plain file with its checksum, one byte of which may be changed. */
  lemma OnTheWay(file: seq<byte>, changed: bool, at: nat, x: byte)
    requires changed ==> at < |file| && x != file[at]
    ensures var data := if changed then file[at := x] else file;
            && (if changed then (file + Trailer(file))[at := x] else file + Trailer(file)) == data + Trailer(file)
            && (data + Trailer(file))[..|file|] == data
            && FromBigEndian((data + Trailer(file))[|file|..|file| + 8]) == Checksum(file)
            && (Checksum(data) == Checksum(file) <==> !changed)
  {
    Powers();
    BigEndianBack(Checksum(file), 8);
    var data := if changed then file[at := x] else file;
    assert (data + Trailer(file))[|file|..|file| + 8] == Trailer(file);
    if changed {
      ChecksumSeesOneByte(file, at, x);
    }
  }

  /** A plain file, of which one byte may be changed on the way. */
  method TransferPlain(file: seq<byte>, changed: bool, at: nat, x: byte, reliable: bool)
    returns (sent: int, received: int, copy: File)
    requires Sum(file) < TWO63 && (changed ==> at < |file| && x != file[at])
    ensures reliable && !changed ==> sent == received == Sum(file) && copy.contents == file
    ensures reliable && changed ==> received == -2
    ensures changed ==> received < 0
    ensures received >= 0 ==> sent == received && copy.contents == file
  {
    var source := new File(file, reliable);
    var outgoing := new Socket([], reliable);
    ghost var done;
    sent, done := TransmitPlain(outgoing, source);
    copy := new File([], reliable);
    received := -1;
    if sent >= 0 {
      assert file[0..] == file && outgoing.outbox == file + Trailer(file);
      var wire := if changed then outgoing.outbox[at := x] else outgoing.outbox;
      OnTheWay(file, changed, at, x);
      ChecksumIsNoError(file);
      var incoming := new Socket(wire, reliable);
      received := ReceivePlain(incoming, copy, |file|);
    } else {
      ChecksumIsNoError(file);
    }
  }
}
