/** The streaming decoder: blocks decoded one after the other, each on top of what
    is still known of the ones before. */
module DecompressStream {
  import opened Bytes
  import opened BlockFormat
  import opened Decompress

  /** How many of the `size` bytes before `end` an output of `room` bytes at `start`
      spares: those behind it, or all of them if it does not overlap. */
  function Spared(end: int, size: nat, start: nat, room: nat): (k: nat)
    ensures k <= size
  {
    if end <= start || start + room + size <= end then size
    else if end <= start + room then 0
    else end - (start + room)
  }

  /** Where the history is: the prefix, and a dictionary before it. */
  datatype Place = Place(prefixBuf: array<byte>, prefixEnd: nat, prefixSize: nat,
                         extBuf: array<byte>, extStart: nat, extDictSize: nat)
  {
    predicate Rolls(dst: array<byte>, start: nat) {
      prefixBuf == dst && prefixEnd == start
    }

    /** How much of the prefix and of the dictionary an output spares. */
    function SparedPrefix(dst: array<byte>, start: nat, room: nat): (k: nat)
      ensures k <= prefixSize
    {
      if prefixBuf == dst then Spared(prefixEnd, prefixSize, start, room) else prefixSize
    }

    function SparedExternal(dst: array<byte>, start: nat, room: nat): (k: nat)
      ensures k <= extDictSize
    {
      if extBuf == dst then Spared(extStart + extDictSize, extDictSize, start, room) else extDictSize
    }

    /** How much of the stream a block decoded to `dst` at `start` can refer to, when the
        last `intact` bytes of the dictionary are still those of the stream. */
    function KnownSize(dst: array<byte>, start: nat, room: nat, intact: nat): nat {
      if !Rolls(dst, start) then SparedPrefix(dst, start, room)
      else if prefixSize < DISTANCE_MAX then Min(intact, SparedExternal(dst, start, room)) + prefixSize
      else prefixSize
    }

    /** How much of the dictionary is still that of the stream after `r` bytes more.
        An empty block in a new place leaves the prefix as the dictionary. */
    function IntactNext(dst: array<byte>, start: nat, room: nat, r: nat, intact: nat): nat {
      if prefixSize == 0 then 0
      else if Rolls(dst, start) then Min(intact, SparedExternal(dst, start, room))
      else if r == 0 then 0
      else SparedPrefix(dst, start, room)
    }

    /** A jump makes the prefix a dictionary. */
    function Jump(dst: array<byte>, start: nat): Place {
      if prefixSize == 0 || Rolls(dst, start) then this
      else this.(extBuf := prefixBuf, extStart := if prefixSize <= prefixEnd then prefixEnd - prefixSize else 0,
                 extDictSize := prefixSize)
    }

    /** The prefix grows, or starts anew. */
    function Add(dst: array<byte>, start: nat, r: nat): Place {
      if r == 0 then this
      else this.(prefixBuf := dst, prefixEnd := start + r, prefixSize := if Rolls(dst, start) then prefixSize + r else r)
    }

    /** Where it is after `r` bytes were decoded to `dst` at `start`. */
    function Next(dst: array<byte>, start: nat, r: nat): Place {
      Jump(dst, start).Add(dst, start, r)
    }
  }

  /** LZ4_streamDecode_t_internal */
  class StreamDecode {
    var prefixBuf: array<byte>
    var prefixEnd: nat
    var prefixSize: nat
    var extBuf: array<byte>
    var extStart: nat
    var extDictSize: nat

    /** LZ4_createStreamDecode, or LZ4_setStreamDecode with a dictionary. */
    constructor (buf: array<byte>, dictionary: nat, dictSize: nat)
      requires dictionary + dictSize <= buf.Length
      ensures Valid() && State() == Place(buf, dictionary + dictSize, dictSize, buf, 0, 0)
    {
      prefixBuf, prefixEnd, prefixSize := buf, dictionary + dictSize, dictSize;
      extBuf, extStart, extDictSize := buf, 0, 0;
    }

    function State(): Place
      reads this
    {
      Place(prefixBuf, prefixEnd, prefixSize, extBuf, extStart, extDictSize)
    }

    ghost predicate Valid()
      reads this
    {
      && prefixSize <= prefixEnd <= prefixBuf.Length
      && extStart + extDictSize <= extBuf.Length
      && (prefixSize == 0 ==> extDictSize == 0)
    }

    ghost function Prefix(): seq<byte>
      requires Valid()
      reads this, prefixBuf
    {
      prefixBuf[prefixEnd - prefixSize..prefixEnd]
    }

    /** The last `k` bytes of the prefix, and of the dictionary. */
    ghost function PrefixTail(k: nat): seq<byte>
      requires Valid() && k <= prefixSize
      reads this, prefixBuf
    {
      prefixBuf[prefixEnd - k..prefixEnd]
    }

    ghost function ExternalTail(k: nat): seq<byte>
      requires Valid() && k <= extDictSize
      reads this, extBuf
    {
      extBuf[extStart + extDictSize - k..extStart + extDictSize]
    }

    /** The history of a block that is decoded to `dst` at `start`, as far as its own
        output spares it. */
    ghost function Known(dst: array<byte>, start: nat, room: nat): seq<byte>
      requires Valid()
      reads this, prefixBuf, extBuf
    {
      if !State().Rolls(dst, start) then PrefixTail(State().SparedPrefix(dst, start, room))
      else if prefixSize < DISTANCE_MAX then ExternalTail(State().SparedExternal(dst, start, room)) + Prefix()
      else Prefix()
    }

    /** A block right behind the ones before, with a dictionary as well. */
    method DoubleDict(src: seq<byte>, size: nat, spared: nat) returns (r: int, ghost lost: seq<byte>)
      requires Valid() && prefixEnd + size <= prefixBuf.Length && spared <= extDictSize
      modifies prefixBuf
      ensures Kept(old(prefixBuf[..]), prefixBuf[..], prefixEnd, prefixEnd + size)
      ensures Yields(src, lost + old(ExternalTail(spared) + Prefix()), false, prefixBuf[prefixEnd..prefixEnd + size], r)
    {
      ghost var e, p := ExternalTail(spared), Prefix();
      var dict;
      dict, lost := ReadDict(extBuf, extStart + extDictSize, extDictSize, spared, e);
      assert dict + p == lost + (e + p);
      r := DecompressExtDict(src, prefixBuf, prefixEnd, size, false, prefixSize, dict);
    }

    /** A block right behind the ones before. */
    method Rolling(src: seq<byte>, size: nat, spared: nat) returns (r: int, ghost lost: seq<byte>)
      requires Valid() && prefixEnd + size <= prefixBuf.Length && spared <= extDictSize
      modifies prefixBuf
      ensures Kept(old(prefixBuf[..]), prefixBuf[..], prefixEnd, prefixEnd + size)
      ensures Yields(src, lost + old(if prefixSize < DISTANCE_MAX then ExternalTail(spared) + Prefix() else Prefix()), false,
                     prefixBuf[prefixEnd..prefixEnd + size], r)
    {
      lost := [];
      ghost var p := Prefix();
      if prefixSize >= 65536 - 1 {
        assert lost + p == p;
        r := DecompressWithPrefix64k(src, prefixBuf, prefixEnd, size, false, prefixEnd - prefixSize);
      } else if extDictSize == 0 {
        assert lost + (ExternalTail(spared) + p) == p;
        r := DecompressWithSmallPrefix(src, prefixBuf, prefixEnd, size, false, prefixSize);
      } else {
        r, lost := DoubleDict(src, size, spared);
      }
    }

    /** What the output spares stays as it is. */
    method RollOn(src: seq<byte>, size: nat, spared: nat) returns (r: int, ghost lost: seq<byte>)
      requires Valid() && prefixEnd + size <= prefixBuf.Length && spared <= extDictSize
      requires extBuf == prefixBuf && spared > 0 ==>
                 extStart + extDictSize <= prefixEnd || prefixEnd + size <= extStart + extDictSize - spared
      modifies prefixBuf
      ensures Kept(old(prefixBuf[..]), prefixBuf[..], prefixEnd, prefixEnd + size)
      ensures Yields(src, lost + old(if prefixSize < DISTANCE_MAX then ExternalTail(spared) + Prefix() else Prefix()), false,
                     prefixBuf[prefixEnd..prefixEnd + size], r)
      ensures Prefix() == old(Prefix()) && ExternalTail(spared) == old(ExternalTail(spared))
    {
      ghost var before := prefixBuf[..];
      ghost var to := if extBuf == prefixBuf && spared > 0 then extStart + extDictSize else 0;
      ghost var from := if extBuf == prefixBuf && spared > 0 then extStart + extDictSize - spared else 0;
      r, lost := Rolling(src, size, spared);
      KeptOutsideBoth(before, prefixBuf[..], prefixEnd, prefixEnd + size, prefixEnd - prefixSize, prefixEnd, from, to);
    }

    /** A block somewhere else: what was the prefix is now an external dictionary. */
    method Elsewhere(src: seq<byte>, dst: array<byte>, start: nat, size: nat, spared: nat) returns (r: int, ghost lost: seq<byte>)
      requires Valid() && start + size <= dst.Length && prefixSize > 0 && spared <= prefixSize
      modifies this`extBuf, this`extStart, this`extDictSize, dst
      ensures Kept(old(dst[..]), dst[..], start, start + size)
      ensures Yields(src, lost + old(PrefixTail(spared)), false, dst[start..start + size], r)
      ensures extBuf == prefixBuf && extDictSize == prefixSize && extStart == prefixEnd - prefixSize
    {
      ghost var e := PrefixTail(spared);
      extDictSize := prefixSize;
      extBuf, extStart := prefixBuf, prefixEnd - extDictSize;
      var dict;
      dict, lost := ReadDict(extBuf, extStart + extDictSize, extDictSize, spared, e);
      assert dict + dst[start - 0..start] == lost + e;
      r := DecompressExtDict(src, dst, start, size, false, 0, dict);
    }

    /** What the output spares stays as it is. */
    method JumpTo(src: seq<byte>, dst: array<byte>, start: nat, size: nat, spared: nat) returns (r: int, ghost lost: seq<byte>)
      requires Valid() && start + size <= dst.Length && prefixSize > 0 && spared <= prefixSize
      requires prefixBuf == dst && spared > 0 ==> prefixEnd <= start || start + size <= prefixEnd - spared
      modifies this`extBuf, this`extStart, this`extDictSize, dst
      ensures Kept(old(dst[..]), dst[..], start, start + size)
      ensures Yields(src, lost + old(PrefixTail(spared)), false, dst[start..start + size], r)
      ensures extBuf == prefixBuf && extDictSize == prefixSize && extStart == prefixEnd - prefixSize
      ensures ExternalTail(spared) == old(PrefixTail(spared))
    {
      ghost var before := dst[..];
      ghost var to := if prefixBuf == dst && spared > 0 then prefixEnd else 0;
      ghost var from := if prefixBuf == dst && spared > 0 then prefixEnd - spared else 0;
      r, lost := Elsewhere(src, dst, start, size, spared);
      KeptOutsideBoth(before, dst[..], start, start + size, 0, 0, from, to);
    }

    /** The first block, or one in a new place, or one behind the ones before. */
    method Dispatch(src: seq<byte>, dst: array<byte>, start: nat, size: nat, rolling: bool) returns (r: int, ghost lost: seq<byte>)
      requires Valid() && start + size <= dst.Length && rolling == State().Rolls(dst, start)
      modifies this`extBuf, this`extStart, this`extDictSize, dst
      ensures Valid() && Kept(old(dst[..]), dst[..], start, start + size)
      ensures Yields(src, lost + old(Known(dst, start, size)), false, dst[start..start + size], r)
      ensures State() == old(State()).Jump(dst, start)
      ensures rolling ==> Prefix() == old(Prefix())
      ensures rolling ==> var k := old(State()).SparedExternal(dst, start, size); ExternalTail(k) == old(ExternalTail(k))
      ensures !rolling && prefixSize > 0 ==>
                var k := old(State()).SparedPrefix(dst, start, size); ExternalTail(k) == old(PrefixTail(k))
    {
      if prefixSize == 0 {
        lost := [];
        assert lost + Known(dst, start, size) == [];
        r := DecompressSafe(src, dst, start, size);
      } else if rolling {
        r, lost := RollOn(src, size, State().SparedExternal(dst, start, size));
      } else {
        r, lost := JumpTo(src, dst, start, size, State().SparedPrefix(dst, start, size));
      }
    }

    /** What was decoded belongs to the prefix. */
    method Advance(dst: array<byte>, start: nat, r: int)
      requires Valid() && start + r <= dst.Length && (prefixSize == 0 ==> extDictSize == 0)
      modifies `prefixBuf, `prefixEnd, `prefixSize
      ensures Valid() && State() == old(State()).Add(dst, start, if r > 0 then r else 0)
      ensures forall k :: 0 <= k <= extDictSize ==> ExternalTail(k) == old(ExternalTail(k))
      ensures r <= 0 ==> Prefix() == old(Prefix())
      ensures r > 0 ==> Prefix() == (if old(State()).Rolls(dst, start) then old(Prefix()) else []) + dst[start..start + r]
    {
      if r > 0 {
        if prefixBuf == dst && prefixEnd == start {
          assert dst[prefixEnd - prefixSize..start + r] == Prefix() + dst[start..start + r];
          prefixSize := prefixSize + r;
        } else {
          prefixSize := r;
        }
        prefixBuf, prefixEnd := dst, start + r;
      }
    }

    /** LZ4_decompress_safe_continue. The output may be written over older parts of the
        stream: the block is decoded on what it spares, whatever the rest now reads as.
        After it the prefix is all that was decoded in one piece, up to here; what was
        the prefix before a jump is the dictionary. */
    method SafeContinue(src: seq<byte>, dst: array<byte>, start: nat, maxOutputSize: nat) returns (r: int, ghost lost: seq<byte>)
      requires Valid() && start + maxOutputSize <= dst.Length
      modifies this, dst
      ensures Valid() && Kept(old(dst[..]), dst[..], start, start + maxOutputSize)
      ensures Yields(src, lost + old(Known(dst, start, maxOutputSize)), false, dst[start..start + maxOutputSize], r)
      ensures State() == old(State()).Next(dst, start, if r > 0 then r else 0)
      ensures r > 0 ==> Prefix() == (if old(State()).Rolls(dst, start) then old(Prefix()) else []) + dst[start..start + r]
      ensures r <= 0 && old(State()).Rolls(dst, start) ==> Prefix() == old(Prefix())
      ensures old(State()).Rolls(dst, start) ==>
                var k := old(State()).SparedExternal(dst, start, maxOutputSize); ExternalTail(k) == old(ExternalTail(k))
      ensures !old(State()).Rolls(dst, start) && old(prefixSize) > 0 ==>
                var k := old(State()).SparedPrefix(dst, start, maxOutputSize); ExternalTail(k) == old(PrefixTail(k))
    {
      var rolling := prefixBuf == dst && prefixEnd == start;
      r, lost := Dispatch(src, dst, start, maxOutputSize, rolling);
      Advance(dst, start, r);
    }
  }

  /** A dictionary of which only the last `spared` bytes stay as they are; the others may
      read as anything. */
  method ReadDict(buf: array<byte>, end: nat, size: nat, spared: nat, ghost e: seq<byte>)
    returns (dict: seq<byte>, ghost lost: seq<byte>)
    requires spared <= size <= end <= buf.Length && e == buf[end - spared..end]
    ensures |dict| == size && dict[size - spared..] == buf[end - spared..end] && dict == lost + e
  {
    var any := new byte[size - spared];
    lost := any[..];
    dict := any[..] + buf[end - spared..end];
  }
}
