# ISR: block codec, transfer protocol and sessions in Dafny

ISR moves files and directory listings between a client and a server, plain or in
LZ4 blocks. This project models the LZ4 block codec it ships (`lib/lz4.c`), the
transfer of files and listings (`lib/isr.c`, `lib/isr-cli.c`) and whole sessions of a
client and a server, and proves what they promise. `dafny verify dfyconfig.toml`
checks everything.

## How it is built

The code that works step by step is modelled step by step: pointers are indices,
the output and the hash table are arrays, loops keep their order of reads and writes,
`goto`s are methods for the phases they connect. Each method is proved against a
specification that does not follow it:

- `BlockFormat` is the reference: a recursive parser and decoder of the LZ4 block
  format, byte by byte, and the restrictions on the end of a block. `Decode(s, h)` is
  what `s` decodes to on top of the history `h`. `PartialFormat` is its companion for
  partial decodes: what any bytes at all come to when only the first bytes of the output
  are wanted. `PartialBlocks` proves what that is for a block, for a source that goes on
  behind one, and for a block that is cut short.
- Decoder: `WideCopy` (overshooting copies, overlap tables), `MatchStage`,
  `LiteralStage`, `Decoder` (one iteration of the fast and of the safe loop),
  `Decompress` (the loops and the entry points), `DecompressStream`, and
  `UnsafeDecoder` (the decoder that is told the decoded size).
- Compressor: `MachineWord` and `MatchCount` (word-wise match counting), `MatchFinder`,
  `SequenceWriter`, `Compressor` (`LZ4_compress_generic_validated`), `CompressStream`
  (states, entry points, dictionaries, streams). The hash is an arbitrary function.
- Both: `RoundTrip` for single blocks and runs on one state, `StreamRoundTrip` for
  streams.
- Protocol: `Wire` (checksums, big-endian numbers, frames), `Transfer` (files over a
  connection whose every read, write, send and receive moves any non-zero number of
  bytes, and may fail), `Listing`, `Paths`.
- Sessions: `Runs` (two parties that move in any order), `Machines` (parties that send
  and receive over two FIFO byte channels, one byte a step), `Codecs` (the codec as a
  function that keeps the promises of the methods), `Sessions` (client and server as
  machines), `SessionRuns`, `SessionEnds`.

Three predicates carry most of the results. `Encodes(b, h, x)`: the block `b` is well
formed and decodes on `h` to `h + x`. `Yields(src, h, partial, room, r)`: what a decoder
that returned `r` and left `room` in its target may have done. `AlwaysEndsWith(c, s, o)`:
every run of the session of `c` and `s`, by any schedule, is at every point able to move
on until it ends, and ends in the outcome `o`.

## Model

| member | source | states |
|---|---|---|
| RoundTrip.CompressAndDecompress | lib/lz4.c:1453-1470 | a source of any supported size, compressed with any acceleration and hash into a buffer of at least the bound, takes at most the bound, and is decompressed into any buffer that holds it to exactly the source |
| RoundTrip.FillAndDecompress | lib/lz4.c:1481-1522 | LZ4_compress_destSize stays within the target, and fills it, but for at most one byte, unless it consumes all of the source, as it does if the target holds the bound; its block decodes into exactly as many bytes as it consumed, to those |
| RoundTrip.CompressAndDecompressPart | lib/lz4.c:2459-2465 | a partial decode of what was compressed gives the first min(source, target, capacity) bytes of the source, also with any bytes behind the block, if the target is at most the source |
| RoundTrip.CompressAndDecompressCut | lib/lz4.c:2285-2330 | from the first bytes of a block, wherever it is cut, a partial decode that is not rejected gives the beginning of the source |
| RoundTrip.DecompressTwice | lib/lz4.c:1869-1966 | on every well-formed block of known decoded size both decoders write the same bytes, those of the reference, and the unsafe one returns the exact size of the block |
| RoundTrip.ReuseState | lib/lz4.c:1414-1450 | over any run of calls on one state that is never cleared in between, with any sizes, capacities and hashes, every block stands on its own: it decodes without any history to its own source |
| RoundTrip.EncodesOnRecent | lib/lz4.h:509-511 | the last 65535 bytes of a stream are history enough for any of its blocks |
| StreamRoundTrip.CompressRun | lib/lz4.c:1707-1784 | any run of LZ4_compress_fast_continue, whose sources are written to memory anywhere as long as each leaves the end of the one before, yields a stream: every block is well formed and decodes, on the end of what came before, to its source; no block builds on more than the source right before its own, less what its own source was written over |
| StreamRoundTrip.CompressAnew | lib/lz4.c:1570-1572 | the same for a stream that is begun by LZ4_resetStream_fast on any initialised state |
| StreamRoundTrip.CompressWithDictionary | lib/lz4.c:1587-1651 | the same for a stream that begins on a dictionary |
| StreamRoundTrip.DecompressRun | lib/lz4.c:2630-2668 | any run of LZ4_decompress_safe_continue at any places gives the parts of the stream, if at each step what is remembered and not overwritten, by earlier parts or by this one, is as long as the block builds on, or 65535 bytes |
| StreamRoundTrip.StreamInStep | lib/lz4.h:518-525 | compressor and decoder with their own buffers, one or several, wrapping around or not: if a part follows the one before wherever its source does, and spares as much as its source does, the stream comes back |
| StreamRoundTrip.StreamThroughRings | lib/lz4.h:518-522 | synchronized mode: with ring buffers of the same layout and exact part sizes the stream comes back, whatever the size of the ring and wherever it wraps around |
| StreamRoundTrip.DecompressThroughRing | lib/lz4.h:514-517 | a decoder's own ring buffer serves any stream, wherever its sources stood, if it holds 65535 bytes and two parts |
| StreamRoundTrip.DecompressStreamed | lib/lz4.c:2589-2602 | LZ4_setStreamDecode and blocks decoded one behind the other give the stream in one piece and change nothing else, wherever the dictionary lies |
| StreamRoundTrip.StreamAndBack | lib/lz4.c:1707-1784 | a stream on a dictionary, compressed and decoded again, is the stream; it succeeds if every buffer holds the bound |
| Decompress.DecompressGeneric | lib/lz4.c:2022-2445 | on any bytes at all the decoder ends within its buffers; what it returns and writes is what the reference decodes, for a full decode whenever it succeeds, and it succeeds on every well-formed block that fits; for a partial decode of any bytes, whenever it succeeds, exactly the bytes and the number of them that these come to within the room, and it rejects only what they say is to be rejected |
| Decompress.DecompressSafe | lib/lz4.c:2450-2455 | the same for LZ4_decompress_safe; outside of the output nothing changes |
| Decompress.DecompressSafePartial | lib/lz4.c:2458-2465 | the same for a partial decode into the smaller of target and capacity |
| Decompress.YieldsOfMore | lib/lz4.h:299-306 | every partial decode of a well-formed block returns min(room, decoded size) and yields that prefix of it; so it does when the source goes on behind the block with any bytes, if the room is at most the decoded size |
| Decompress.YieldsOfLess | lib/lz4.c:2285-2330 | from a source that ends anywhere within a well-formed block, whatever is yielded is a prefix of what the whole block decodes to |
| Decompress.YieldsOfCut | lib/lz4.c:2293-2299 | if it ends within the literals of a sequence, everything that is there is yielded, up to the room: all complete sequences, and the literals up to the end of the input |
| PartialBlocks.PartOfMore | lib/lz4.c:2280-2330 | a partial decode comes to the first bytes of what the reference decodes, whatever stands behind the block |
| PartialBlocks.PartOfLess | lib/lz4.c:2285-2330 | on the beginning of a block it comes to a rejection or a prefix of that |
| PartialBlocks.PartOfCut | lib/lz4.c:2293-2299 | cut in a run of literals, it comes to all the bytes there are |
| PartialFormat.FromFarHistory | lib/lz4.c:2161-2196 | history farther back than 65535 bytes makes no difference to a partial decode |
| Decompress.DecompressWithPrefix64k | lib/lz4.c:2478-2494 | any stretch of at least 65535 bytes before the output is as good a history as all of it |
| Decompress.DecompressUsingDict | lib/lz4.c:2719-2747 | a dictionary yields the same whether it is a short prefix, a long prefix or a separate buffer |
| Decompress.YieldsFarHistory | lib/lz4.c:2161-2196 | what is farther back than 65535 bytes makes no difference to a decode |
| DecompressStream.StreamDecode.SafeContinue | lib/lz4.c:2630-2668 | a block is decoded on prefix and dictionary, as far as its own output spares them, whatever the overwritten bytes read as; afterwards the prefix is all that was decoded in one piece, and what the output spares is unchanged |
| DecompressStream.StreamDecode.constructor | lib/lz4.c:2589-2602 | the state begins with the dictionary as prefix |
| UnsafeDecoder.DecompressUnsafe | lib/lz4.c:1869-1966 | on bytes that decode to the given size and have no zero offset: it returns the size of the block exactly if the block is well formed, and -1 otherwise; then it has written what the reference decodes |
| UnsafeDecoder.WellFormedOffsets | lib/lz4.c:1912-1928 | a well-formed block has no zero offset |
| Decoder.SafeStep | lib/lz4.c:2215-2437 | one iteration of the safe loop adds exactly the next sequence, or rejects a sequence no well-formed block has |
| Decoder.FastStep | lib/lz4.c:2075-2210 | one iteration of the fast loop does the same, or goes on in the middle of the safe loop with nothing lost |
| Decoder.Shortcut | lib/lz4.c:2219-2262 | the two-stage shortcut does what the longer way would |
| LiteralStage.ReadVariableLength | lib/lz4.c:1978-2014 | reads the length the format means, or fails exactly if the input ends too early |
| LiteralStage.CopyLiterals | lib/lz4.c:2285-2338 | literals are copied and the offset behind them is read; it stops only where the block or a partial decode ends, and refuses only a full decode whose literals end neither with the block nor far enough from the end of block or output |
| MatchStage.ExtDictMatch | lib/lz4.c:2356-2384 | a match that begins in the dictionary, and may run on into the output and over itself, extends the window as a byte-by-byte copy does |
| MatchStage.CopyMatch | lib/lz4.c:2349-2434 | every way to copy a match extends the window as a byte-by-byte copy does, within the output |
| WideCopy.MemcpyUsingOffset | lib/lz4.c:534-572 | the pattern fill for offsets 1, 2, 4 and the strided copy for all others agree with the byte-by-byte overlapping copy up to the end, and write at most 12 bytes more |
| WideCopy.MemcpyUsingOffsetBase | lib/lz4.c:495-514 | the table-adjusted first eight bytes and strides of eight equal the overlapping copy, for every offset |
| WideCopy.WildCopy8In | lib/lz4.c:464-475 | copies to the end and changes nothing after the last stride |
| BlockFormat.ExtendAt | lib/lz4.c:2406-2434 | every byte of an overlapping copy is the byte one offset before it, also where that was copied itself |
| BlockFormat.ExtendStride | lib/lz4.c:471-472 | and the byte any multiple of the offset before it, which is what makes wider strides right |
| BlockFormat.WellFormedDecodes | lib/lz4.c:245-249 | a well-formed block decodes, to the size it is well formed for |
| BlockFormat.DecodeHistory | lib/lz4.c:2161-2196 | a block well formed on a history decodes to the same on a longer one |
| BlockEncoding.EmitsWellFormed | lib/lz4.c:1034-1338 | emitted sequences before a block that is well formed on the text so far make a block that is well formed, if the last match begins 12 bytes and ends 5 bytes before the end |
| BlockEncoding.ReadsSequence | lib/lz4.c:1111-1226 | the bytes of a sequence are parsed back as that sequence |
| MatchCount.Count | lib/lz4.c:679-703 | the bytes before the returned length are equal and the next differ, or it is the limit; the two stretches may overlap |
| MatchCount.CommonRunIs | lib/lz4.c:679-703 | the common run is equal, and is followed by a difference or the limit |
| MachineWord.DifferentWords | lib/lz4.c:579-610 | the trailing zeros of the XOR of two different words tell the first byte that differs |
| MatchFinder.Probe | lib/lz4.c:1253-1294 | an entry is taken for a match exactly if it lies in the window, at most 65535 back, and begins with the same four bytes |
| MatchFinder.FindMatch | lib/lz4.c:1040-1103 | the search ends at the first position it looks up, in steps that grow as it goes on, whose entry is such a match, and finds none exactly if there is none up to 12 bytes before the end; the table only holds positions seen |
| MatchFinder.CatchUp | lib/lz4.c:1105-1109 | going back keeps a match of as many bytes more, and does not pass the anchor or leave the window |
| MatchFinder.MatchLength | lib/lz4.c:1165-1185 | the match is as long as possible, also where it runs from the dictionary into the source |
| Compressor.EncodeLiterals | lib/lz4.c:1111-1134 | the bytes written are the token, the length and the literals; it gives up only if the capacity is below the bound, and rewinds with nothing written |
| Compressor.CutMatch | lib/lz4.c:1187-1207 | a match that does not fit is shortened until it does, to one that leaves room for the last literals, and no table entry points beyond its end; limited output gives up instead |
| Compressor.EncodeMatch | lib/lz4.c:1147-1226 | behind the literals stand the offset, in 1..65535, and the length of a match that repeats the text, through rewinds and shortening, within the output; it gives up only if the capacity is below the bound |
| Compressor.MeasureLastRun | lib/lz4.c:1302-1313 | the last literals fit the output and the bound; only if the target is to be filled are they cut, and then they leave the last match far enough from the end, not one more would fit, and one byte stays unused exactly if the room left is 16 above a multiple of 256 |
| Compressor.CompressValidated | lib/lz4.c:930-1338 | in all three output modes: what it writes is a well-formed block that decodes to the consumed source, within the bound and the capacity; it gives up only if the capacity is below the bound; a target that is to be filled is, but for at most one byte, unless all of the source is consumed; the table is fit for what follows |
| Compressor.Ratio | lib/lz4.h:215 | a sequence never spends more than its share of n/255 |
| CompressStream.CompressFast | lib/lz4.c:1453-1470 | returns 0 only for an unsupported size or a capacity below the bound; otherwise a block for all of the source |
| CompressStream.CompressDestSize | lib/lz4.c:1481-1522 | a block within the target for as much of the source as it says it consumed; if that is not all, at most one byte of the target is left over |
| CompressStream.Stream.PrepareTable | lib/lz4.c:884-923 | whatever was in the table is out of reach of the next block |
| CompressStream.Stream.FastExtState | lib/lz4.c:1382-1405 | any state, initialised or not, is fit for the next block afterwards |
| CompressStream.Stream.FastExtStateFastReset | lib/lz4.c:1414-1450 | an initialised state stays one, and the block needs no history |
| CompressStream.Stream.ResetFast | lib/lz4.c:1570-1572 | an initialised state begins a stream without a dictionary |
| CompressStream.Stream.LoadDict | lib/lz4.c:1587-1656 | the last 64 KB of a dictionary of at least 8 bytes are the history |
| CompressStream.Stream.RenormDict | lib/lz4.c:1687-1704 | after rescaling every kept entry is at the same distance from the end of the dictionary, so means the same byte; the others are dropped |
| CompressStream.Stream.FixDictionary | lib/lz4.c:1715-1738 | what is left of the dictionary ends where it ended and lies outside of the source, and is all of it, or what the source leaves of it up to 64 KB, or nothing if that is less than four bytes |
| CompressStream.Stream.FastContinue | lib/lz4.c:1707-1784 | the block decodes on the end of the old dictionary that the source was not written over, no less of it than there is up to 64 KB; the next dictionary is the source, with the old one in front if that ended where the source begins |
| Wire.CountByteValues | lib/isr.h:108-114 | the sum of the bytes, modulo 2^64 |
| Wire.ChecksumOfBoth | lib/isr.c:250-268 | a running checksum does not depend on how the data is cut |
| Wire.ChecksumIsNoError | lib/isr.c:477-498 | a total below 2^63 is returned as itself, and is neither -1 nor -2 |
| Wire.ChecksumSeesOneByte | lib/isr.c:496 | one changed byte changes the checksum |
| Wire.ChecksumTellsTotals | lib/isr.c:496 | below 2^64, checksums are equal exactly if the totals are |
| Wire.ChecksumIgnoresOrder | lib/isr.h:108-114 | the same bytes in any other order have the same checksum |
| Wire.BigEndianDigit | lib/isr.c:315-322 | byte `i` of a number of `k` bytes on the wire is its digit of weight 256^(k-1-i) |
| Transfer.Socket.RecvExact | lib/isr.c:41-49 | receives exactly the bytes asked for, however they arrive, or fails |
| Transfer.Socket.SendExact | lib/isr.c:51-59 | sends exactly the bytes given, however many each send takes, or fails |
| Transfer.File.WriteAll | lib/isr.c:240-248 | writes exactly the bytes given, or fails |
| Transfer.TransmitPlain | lib/isr.c:250-268 | sends the file and its checksum, and returns it; -1 only after a failure |
| Transfer.TransmitCompressed | lib/isr.c:270-306 | sends the file in frames that each decode on their own to a piece of it and fit the receiver's buffer, then the checksum; it fails by itself only for a block size above the LZ4 limit, and reads nothing with a block size of 0 |
| Transfer.ReceivePlain | lib/isr.c:477-498 | on anything that arrives: writes the announced bytes; returns their checksum exactly if the one behind them is the same, -2 if it is another, -1 if something is missing |
| Transfer.ReceiveCompressed | lib/isr.c:500-545 | on anything that arrives: takes the longest run of blocks that fit and decode, until as much as was announced is there in 64-bit arithmetic; it asks for more than its buffer holds exactly if the next length exceeds the bound of the block size, fails exactly if the next block is cut off or decodes to nothing, and otherwise compares the checksum |
| Transfer.AllTaken | lib/isr.c:508-531 | on the frames of a sender it takes all blocks, and neither fails nor asks for an overlong one |
| Transfer.TransferCompressed | lib/isr.c:500-545 | for every file, block size, chunking and hash: without failures the copy is the file, all bytes are consumed and both ends return its checksum; with failures, if both ends return one the copy is the file |
| Transfer.TransferPlain | lib/isr.c:477-498 | the same for a plain file; if one byte was changed on the way, the receiver returns -2 |
| Listing.ListedBack | lib/isr-cli.c:405-469 | parsing a listing gives its entries in order, and uses it up |
| Listing.EntriesListed | lib/isr-cli.c:405-469 | on any buffer, what the passes read is the listing of the entries they find |
| Listing.CountEntries | lib/isr-cli.c:408-421 | the number of complete entries, and where the pass stops |
| Listing.FillEntries | lib/isr-cli.c:435-465 | exactly these entries in order, and where the pass stops |
| Listing.ParseDirectoryListing | lib/isr-cli.c:405-469 | the complete entries of any buffer, null if there is none |
| Listing.PrintEntries | lib/isr.c:547-590 | one line per complete entry, and where the loop stops; a line is one of a directory exactly if the entry is of that kind, carries the size otherwise, and shows the name, whole if it is below 4096 bytes |
| Listing.SameStop | lib/isr-cli.c:408-465 | the passes stop at the same offset exactly on a listing with less than a header behind it |
| Listing.StopsApart | lib/isr-cli.c:408-465 | a buffer with one entry on which they do not |
| Listing.CollectEntries | lib/isr.c:398-422 | exactly the entries whose names are not "." or "..", in their order, in an array that grows; each keeps its kind, its size and the first 255 bytes of its name; and the size of their listing |
| Listing.TransmitDirectoryListing | lib/isr.c:365-470 | exactly these entries are sent; the announced size is that of what is sent; the checksum made piece by piece is that of the whole |
| Listing.VisibleLists | lib/isr.c:398-422 | the entries that are listed are, by an increasing index map that misses none, those of the directory that are not "." or ".." |
| Listing.RecvVerifiedListing | lib/isr-cli.c:481-504 | returns the listing exactly if its checksum fits |
| Listing.ListDirectory | lib/isr.c:547-590 | through any chunking, the client gets exactly the server's entries but "." and "..", in order, and prints a line for each that tells its kind, size and name |
| Paths.ValidatePath | lib/isr.c:62-82 | accepts a path exactly if it is not empty, does not begin with a separator, and none of its components, cut at both separators, is ".." |
| Paths.AcceptedStaysBelow | lib/isr.c:85-90 | normalising root, "/" and an accepted path keeps all components of the root in front |
| Paths.AcceptedIsBelow | lib/isr.c:62-90 | so an accepted path leads below the root, whatever the root |
| Codecs.CodecRoundTrip | lib/isr.c:516-522 | any compressor and decompressor that keep the promises of the methods restore a piece, within the receiver's buffers |
| Codecs.CompressDefault | lib/lz4.c:1472-1475 | LZ4_compress_default keeps the promise of a session's compressor |
| Codecs.DecompressInto | lib/lz4.c:2450-2455 | LZ4_decompress_safe keeps the promise of a session's decompressor |
| Runs.OneScheduleIsEnough | lib/isr-cli.c:63-140 | if the parties' moves do not disturb each other and one schedule ends, every schedule ends in the same state after as many moves |
| Machines.PartiesCommute | lib/isr-cli.c:63-140 | parties on two FIFO channels do not disturb each other |
| SessionRuns.WireIsTransmitted | lib/isr.c:250-306 | what a sender does as a machine is what the methods that transmit a file promise |
| SessionRuns.FileMoves | lib/isr.c:477-545 | a file goes from one machine to the other unchanged |
| SessionEnds.SendAlwaysEnds | lib/isr-cli.c:63-140 | every run of a send ends in the same outcome; the client returns 0 exactly if the path is below 4096 bytes, leads below the root, resolves and is writable, is new or a file that the overwrite bit of the flags allows to replace, and the format can carry the file; and exactly if the server stored the file unchanged at the path that arrived, which is the client's exactly if that is shorter than 65536 bytes; what exists stays as it is if it is a directory or the bit is not set |
| SessionEnds.MkdirAlwaysEnds | lib/isr-cli.c:142-173 | every run of a request for a directory ends in the same outcome; the client returns 0 exactly if the path leads below the root and resolves, and something stands there or can be made; then something stands there, a file only if it was there before, and otherwise nothing has changed |
| SessionEnds.ReceiveAlwaysEnds | lib/isr-cli.c:277-403 | every run of a receive or a download ends in the same outcome; the client returns 0 exactly if the path leads below the root and resolves, and what stands there can be read and received; then it has saved the server's file unchanged, or shown exactly the entries of the directory; nothing is served from any other path |
| SessionEnds.EverySessionEnds | lib/isr.c:596-662 | every session ends, without ever blocking |
| SessionEnds.NoBlockOverruns | lib/isr.c:512-517 | in no state of any run is a block asked for that is longer than the buffer |

## Findings

Properties the code does not have, with the condition under which it has them.

- Where the passes over a listing stop. The counting pass and the printing loop step over
  a header before they see that its name is missing, the filling pass ends in front of it
  (lib/isr-cli.c:408-465, lib/isr.c:547-590). `Listing.StopsApart` is such a buffer with
  one entry; `Listing.SameStop`: they agree exactly on a listing with less than a header
  behind it. The number and order of entries always agree.
- The checksum is blind to order. `Wire.ChecksumIgnoresOrder`: a file whose bytes arrive in
  another order is accepted as it is. `Wire.ChecksumTellsTotals` says exactly what it sees.
- Long paths. The length of a path travels as a 16-bit number (lib/isr.c:317, lib/isr.c:353), so
  a path of 65536 bytes or more is sent as its beginning, and a send can succeed at another
  path. `SessionEnds.SendAlwaysEnds`: the path that arrives is the client's exactly below
  that length.
- Directories that are files. `isr_mkdir_recursive` takes an existing path for success, so
  a request for a directory succeeds on an existing file
  (`SessionEnds.MkdirAlwaysEnds`).
- Block sizes. With a block size of 0 or above the LZ4 limit a compressed transfer of a file
  that is not empty fails at the client, and leaves an empty file behind where one was to be
  written; the server that sends with block size 0 still reports success
  (`SessionEnds.SendOutcome`, `SessionEnds.FileOutcome`).
- Lengths from the wire. A receiver of blocks does not compare a length with its buffer
  (lib/isr.c:515-517). `Transfer.ReceiveCompressed` says when that happens;
  `SessionEnds.NoBlockOverruns`: never with a peer that follows the protocol.

- Filling a target. lib/lz4.h:251-252 promises that LZ4_compress_destSize fills its target
  completely. `Compressor.MeasureLastRun`: when the last literals are cut, one byte stays
  unused exactly if the room left for them is 16 above a multiple of 256, where no number
  of literals fills it; 16 bytes for a long source without repetitions are an example.

## Left out

- Decompress.DecompressGeneric: full decoding accepts some blocks that are not well formed
  (the fast loop does not enforce every restriction on the last sequences), so acceptance is
  stated between two bounds: whatever is accepted decodes, and whatever is well formed and
  fits is accepted. A zero offset, which the format forbids, is decoded as zeros, as
  the code does it. A target of no bytes accepts the block of one zero byte only.
- Decompress.DecompressSafePartial: a partial decode that meets a zero offset is not
  specified, as near the end of its target it copies bytes that were never written. When a
  match fills the target the code stops (lib/lz4.c:2393-2404), except behind a match from an
  external dictionary or one of the two-stage shortcut (lib/lz4.c:2383, lib/lz4.c:2253), where
  it first reads the next token, and may reject that; the contract allows both. Only
  sources that are not well formed at that token are affected.
- DecompressStream.StreamDecode.SafeContinue: all of the output's room counts as overwritten
  from the start of the call. That is coarser than what lib/lz4.h:514-517 and
  lib/lz4.h:523-525 use, where older bytes are still read until the output reaches them, so
  `StreamRoundTrip.DecompressThroughRing` asks for the room of one part more than
  LZ4_decoderRingBufferSize, and the third of these conditions has no result of its own.
- CompressStream.Stream.ResetFast: that many resets in a row, each of which adds 64 KB to the
  32-bit offset, could overflow it is not modelled; offsets are unbounded numbers.
- Compressor.CompressValidated: how small a block gets is not specified beyond the bound. A
  search ends at its first hit (`MatchFinder.FindMatch`) and a match is as long as possible
  (`MatchFinder.MatchLength`), but that the loops around them take every match that is
  found is not part of the contract; the format leaves the choice to the compressor.
- CompressStream.CompressDestSize: the state that is left behind is not used again, as the
  source asks.
- MatchCount.Count: its first iteration, unrolled in the source, is the first of its loop.
- Listing.ParseDirectoryListing: names are byte sequences, without the terminating zero.
- Transfer.ReceiveCompressed: the read of an overlong block is reported, not carried out.
- Tables of pointers (32-bit targets), attached dictionaries (`usingDictCtx`), LZ4_saveDict,
  alignment, big-endian and 32-bit variants, deprecated functions, buffers that input and
  output share.
- Pointers are indices into arrays, so comparisons that guard against the overflow of
  addresses always hold; every access is proved to be within its array.
- The hash is any function of the bytes at a position; that it reads four or eight bytes
  inside the source is part of the model, its quality is not.
- Failing allocations, Windows branches, the assertions of debug builds.
- Sockets, names, listening and accepting: a connection is a FIFO of bytes in each
  direction that is unbounded; that a full buffer blocks a sender, and that closing a
  connection may discard what is in it, is not modelled.
- The file system: a map from paths to files and directories, with arbitrary answers to
  whether a path resolves, can be made, written or read; symbolic links, parent directories
  and changes by others during a session are not part of it.
- Paths hold no zero bytes. The texts of error responses, logging and printing other than
  the lines of a listing are left out.
- Sessions on connections that fail: the failing operations are modelled in `Transfer`, the
  sessions run on a connection that delivers everything.
- Recursive upload and download of directories, which repeat the sessions of single files.
