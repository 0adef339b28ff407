/** The compressing entry points and the state they share. */
module CompressStream {
  import opened Bytes
  import opened BlockFormat
  import opened DecoderState
  import opened Stretches
  import opened CompressorState
  import opened Compressor

  const ACCELERATION_DEFAULT := 1
  const ACCELERATION_MAX := 65537
  const LIMIT_64K := 65536 + MFLIMIT - 1
  const GB := 0x4000_0000
  const MAX_OFFSET := GB + KB64 + MAX_INPUT_SIZE
  const NULL := -1

  /** LZ4_compressBound */
  function CompressBound(isize: int): int {
    if isize < 0 || isize > MAX_INPUT_SIZE then 0 else Bound(isize)
  }

  function Acceleration(a: int): (r: nat)
    ensures r >= 1
  {
    if a < 1 then ACCELERATION_DEFAULT else if a > ACCELERATION_MAX then ACCELERATION_MAX else a
  }

  /** `b` is a well-formed block that decodes to `x`, on top of every history that
      ends in `h`. */
  ghost predicate Encodes(b: seq<byte>, h: seq<byte>, x: seq<byte>) {
    forall g: seq<byte> {:trigger Decode(b, g + h)} :: Decode(b, g + h) == Some(g + h + x) && WellFormedBlock(b, g + h)
  }

  /** It is enough that the block decodes on `h` itself. */
  lemma EncodesOn(b: seq<byte>, h: seq<byte>, x: seq<byte>)
    requires Decode(b, h) == Some(h + x) && WellFormedBlock(b, h)
    ensures Encodes(b, h, x)
  {
    forall g: seq<byte> ensures Decode(b, g + h) == Some(g + h + x) && WellFormedBlock(b, g + h) {
      WellFormedBlockHistory(b, g, h);
      assert g + (h + x) == g + h + x;
    }
  }

  lemma EncodesHere(b: seq<byte>, h: seq<byte>, x: seq<byte>)
    requires Encodes(b, h, x)
    ensures Decode(b, h) == Some(h + x) && WellFormedBlock(b, h)
  {
    assert Decode(b, [] + h) == Some([] + h + x);
    assert [] + h == h && [] + h + x == h + x;
  }

  /** A table between calls: every index in use is at least eight bytes before `offset`. */
  ghost predicate Idle(tab: seq<nat>, kind: TableType, offset: int) {
    && |tab| == HASH_TABLE_SLOTS
    && forall k :: 0 <= k < HASH_TABLE_SLOTS ==>
         && (tab[k] == 0 || tab[k] + 8 <= offset)
         && (kind == ClearedTable || (kind == ByU32 && k >= HASH_SIZE_U32) ==> tab[k] == 0)
  }

  /** Entries that are out of reach before the call stay so during it. */
  lemma IdleEntries(t: Task, tab: seq<nat>, kind: TableType, offset: int)
    requires t.Valid() && Idle(tab, kind, offset) && (kind == t.kind || kind == ClearedTable)
    requires 0 <= offset <= t.startIndex
    requires t.dictSmall || t.PrefixIdxLimit() == 0 || t.dictSize >= KB64 || offset + KB64 <= t.startIndex
    ensures t.Entries(tab, t.startIndex + 1)
  {
    forall k | 0 <= k < HASH_TABLE_SLOTS ensures t.Entry(k, tab[k], t.startIndex + 1) {
    }
  }

  lemma EntriesIdle(t: Task, tab: seq<nat>)
    requires t.Valid() && t.Entries(tab, t.startIndex + t.n)
    ensures Idle(tab, t.kind, t.startIndex + t.n)
  {
    assert forall k :: 0 <= k < HASH_TABLE_SLOTS ==> t.Entry(k, tab[k], t.startIndex + t.n);
  }

  /** `h` is the end of a dictionary of `n0` bytes that ends at `end`, outside of the source. */
  ghost predicate HistoryAt(h: seq<byte>, mem: seq<byte>, end: int, n0: nat, source: nat, inputSize: nat) {
    && |h| <= n0
    && (h != [] ==> |h| <= end <= |mem| && h == mem[end - |h|..end])
    && (h != [] ==> end <= source || source + inputSize <= end - |h|)
  }

  /** LZ4_stream_t_internal */
  class Stream {
    const hashTable: array<nat>
    var currentOffset: nat
    var tableType: TableType
    var dictionary: int
    var dictSize: nat

    /** LZ4_createStream */
    constructor ()
      ensures fresh(hashTable) && Cleared()
    {
      hashTable := new nat[HASH_TABLE_SLOTS](i => 0);
      currentOffset, tableType, dictionary, dictSize := 0, ClearedTable, NULL, 0;
    }

    ghost predicate Cleared()
      reads this, hashTable
    {
      && Idle(hashTable[..], ClearedTable, 0)
      && currentOffset == 0 && tableType == ClearedTable && dictionary == NULL && dictSize == 0
    }

    /** Correctly initialised: what every call on the state keeps. */
    ghost predicate Initialised()
      reads this, hashTable
    {
      && Idle(hashTable[..], tableType, currentOffset) && currentOffset <= MAX_OFFSET
      && (tableType == ClearedTable ==> currentOffset == 0)
    }

    /** MEM_INIT of the table. */
    method ClearTable()
      requires hashTable.Length == HASH_TABLE_SLOTS
      modifies hashTable
      ensures Idle(hashTable[..], ClearedTable, 0)
    {
      var i := 0;
      while i < HASH_TABLE_SLOTS
        invariant 0 <= i <= HASH_TABLE_SLOTS
        invariant forall k :: 0 <= k < i ==> hashTable[k] == 0
      {
        hashTable[i] := 0;
        i := i + 1;
      }
    }

    /** LZ4_initStream */
    method Init()
      requires hashTable.Length == HASH_TABLE_SLOTS
      modifies this, hashTable
      ensures Cleared()
    {
      ClearTable();
      currentOffset, tableType, dictionary, dictSize := 0, ClearedTable, NULL, 0;
    }

    /** LZ4_prepareTable */
    method PrepareTable(inputSize: int, kind: TableType)
      requires Initialised() && (kind == ByU32 || kind == ByU16)
      modifies this, hashTable
      ensures Initialised() && dictSize == 0 && dictionary == NULL
      ensures tableType == kind || tableType == ClearedTable
      ensures 0 <= inputSize < 0x8000_0000 ==> currentOffset <= GB + KB64
      ensures kind == ByU16 && 0 <= inputSize < 0x8000_0000 && currentOffset != 0 ==> currentOffset + inputSize < 65535
      ensures kind == ByU32 && currentOffset != 0 ==>
                currentOffset >= KB64 && Idle(hashTable[..], tableType, currentOffset - KB64)
    {
      if tableType != ClearedTable {
        if || tableType != kind
           || (kind == ByU16 && (currentOffset + inputSize) % 0x1_0000_0000 >= 0xFFFF)
           || (kind == ByU32 && currentOffset > GB)
           || inputSize >= 4096
        {
          ClearTable();
          currentOffset := 0;
          tableType := ClearedTable;
        }
      }
      if currentOffset != 0 && kind == ByU32 {
        currentOffset := currentOffset + KB64;
      }
      dictionary, dictSize := NULL, 0;
    }

    /** The parameters of a call that compresses `n` bytes. */
    ghost function TaskOf(mem: seq<byte>, source: nat, n: nat, dst: array<byte>, dstCapacity: int, directive: Directive,
                          kind: TableType, mode: DictMode, dictSmall: bool, acceleration: nat, hash: seq<byte> -> nat): Task
      reads this
    {
      Task(mem, source, n, dst, dstCapacity, directive, hashTable, kind, hash, mode, dictSmall, dictionary, dictSize,
           currentOffset, acceleration)
    }

    /** LZ4_compress_generic */
    method CompressGeneric(mem: seq<byte>, source: nat, dst: array<byte>, srcSize: int, dstCapacity: int,
                           directive: Directive, kind: TableType, mode: DictMode, dictSmall: bool,
                           acceleration: nat, hash: seq<byte> -> nat)
      returns (r: nat, inputConsumed: nat)
      requires 1 <= srcSize <= MAX_INPUT_SIZE ==>
                 var t := TaskOf(mem, source, srcSize, dst, dstCapacity, directive, kind, mode, dictSmall, acceleration, hash);
                 t.Valid() && t.Entries(hashTable[..], currentOffset + 1)
      requires srcSize == 0 ==> source <= |mem|
      requires srcSize == 0 && (directive == NotLimited || dstCapacity > 0) ==> dst.Length > 0
      modifies this, hashTable, dst
      ensures dictionary == old(dictionary)
      ensures !(1 <= srcSize <= MAX_INPUT_SIZE) ==>
                && currentOffset == old(currentOffset) && dictSize == old(dictSize)
                && tableType == old(tableType) && hashTable[..] == old(hashTable[..])
      ensures 1 <= srcSize <= MAX_INPUT_SIZE && directive != FillOutput ==>
                && currentOffset == old(currentOffset) + srcSize && dictSize == old(dictSize) + srcSize
                && tableType == kind && Idle(hashTable[..], kind, currentOffset)
      ensures r == 0 ==> Refused(srcSize, dstCapacity, directive)
      ensures r > 0 ==> Accepted(mem, source, srcSize, dstCapacity, directive, dst[..], r, inputConsumed,
                                 History(mem, source, old(dictionary), mode, old(dictSize)))
    {
      if srcSize < 0 || srcSize > MAX_INPUT_SIZE {
        return 0, 0;
      }
      if srcSize == 0 {
        if directive != NotLimited && dstCapacity <= 0 {
          return 0, 0;
        }
        dst[0] := 0;
        EmptyBlock(dst[..1], History(mem, source, dictionary, mode, dictSize), mem[source..source]);
        return 1, 0;
      }
      if directive == FillOutput && dstCapacity < 1 {
        return 0, 0;
      }
      r, inputConsumed := CompressMore(mem, source, dst, srcSize, dstCapacity, directive, kind, mode, dictSmall, acceleration, hash);
    }

    /** The update of the stream state, and the block. */
    method CompressMore(mem: seq<byte>, source: nat, dst: array<byte>, n: nat, dstCapacity: int,
                        directive: Directive, kind: TableType, mode: DictMode, dictSmall: bool,
                        acceleration: nat, hash: seq<byte> -> nat)
      returns (r: nat, consumed: nat)
      requires var t := TaskOf(mem, source, n, dst, dstCapacity, directive, kind, mode, dictSmall, acceleration, hash);
               t.Valid() && t.Entries(hashTable[..], currentOffset + 1)
      requires directive == FillOutput ==> dstCapacity >= 1
      modifies this, hashTable, dst
      ensures dictionary == old(dictionary) && tableType == kind
      ensures currentOffset == old(currentOffset) + n && dictSize == old(dictSize) + n
      ensures directive != FillOutput ==> Idle(hashTable[..], kind, currentOffset)
      ensures r == 0 ==> Refused(n, dstCapacity, directive)
      ensures r > 0 ==> Accepted(mem, source, n, dstCapacity, directive, dst[..], r, consumed,
                                 History(mem, source, old(dictionary), mode, old(dictSize)))
    {
      var t := Task(mem, source, n, dst, dstCapacity, directive, hashTable, kind, hash, mode, dictSmall, dictionary, dictSize,
                    currentOffset, acceleration);
      assert t == TaskOf(mem, source, n, dst, dstCapacity, directive, kind, mode, dictSmall, acceleration, hash);
      dictSize := dictSize + n;
      currentOffset := currentOffset + n;
      tableType := kind;
      r, consumed := CompressValidated(t);
      if directive != FillOutput {
        EntriesIdle(t, hashTable[..]);
      }
      if r > 0 {
        TaskEncodes(t, dst[..r], consumed);
      }
    }

    /** LZ4_compress_fast_extState */
    method FastExtState(mem: seq<byte>, source: nat, dst: array<byte>, inputSize: int, maxOutputSize: int,
                        acceleration: int, hash: seq<byte> -> nat)
      returns (r: nat)
      requires hashTable.Length == HASH_TABLE_SLOTS && maxOutputSize <= dst.Length
      requires 0 <= inputSize <= MAX_INPUT_SIZE ==> source + inputSize <= |mem|
      modifies this, hashTable, dst
      ensures Initialised()
      ensures r == 0 ==> Refused(inputSize, maxOutputSize, LimitedOutput)
      ensures r > 0 ==> Accepted(mem, source, inputSize, maxOutputSize, LimitedOutput, dst[..], r, inputSize, [])
    {
      Init();
      r := FromPrepared(mem, source, dst, inputSize, maxOutputSize, false, Acceleration(acceleration), hash);
    }

    /** The choice of table type and output directive, on a prepared state. */
    method FromPrepared(mem: seq<byte>, source: nat, dst: array<byte>, inputSize: int, maxOutputSize: int,
                        dictSmall: bool, acceleration: nat, hash: seq<byte> -> nat)
      returns (r: nat)
      requires Initialised() && dictSize == 0 && acceleration >= 1 && maxOutputSize <= dst.Length
      requires 0 <= inputSize <= MAX_INPUT_SIZE ==> source + inputSize <= |mem| && Prepared(inputSize, dictSmall)
      modifies this, hashTable, dst
      ensures Initialised()
      ensures r == 0 ==> Refused(inputSize, maxOutputSize, LimitedOutput)
      ensures r > 0 ==> Accepted(mem, source, inputSize, maxOutputSize, LimitedOutput, dst[..], r, inputSize, [])
    {
      var kind := if inputSize < LIMIT_64K then ByU16 else ByU32;
      var consumed;
      if 1 <= inputSize <= MAX_INPUT_SIZE {
        PreparedTask(mem, source, dst, inputSize, maxOutputSize, dictSmall, acceleration, hash);
      }
      if maxOutputSize >= CompressBound(inputSize) {
        r, consumed := CompressGeneric(mem, source, dst, inputSize, 0, NotLimited, kind, NoDict, dictSmall, acceleration, hash);
      } else {
        r, consumed := CompressGeneric(mem, source, dst, inputSize, maxOutputSize, LimitedOutput, kind, NoDict, dictSmall,
                                       acceleration, hash);
      }
    }

    /** The table suits a block of `n` bytes that has no history. */
    ghost predicate Prepared(n: nat, dictSmall: bool)
      reads this, hashTable
    {
      var kind := if n < LIMIT_64K then ByU16 else ByU32;
      && (tableType == kind || tableType == ClearedTable) && currentOffset <= GB + KB64
      && (kind == ByU16 && currentOffset != 0 ==> dictSmall && currentOffset + n < 65535)
      && (kind == ByU32 && currentOffset != 0 ==>
            currentOffset >= KB64 && Idle(hashTable[..], tableType, currentOffset - KB64))
    }

    lemma PreparedTask(mem: seq<byte>, source: nat, dst: array<byte>, n: nat, maxOutputSize: int,
                       dictSmall: bool, acceleration: nat, hash: seq<byte> -> nat)
      requires Initialised() && dictSize == 0 && acceleration >= 1 && maxOutputSize <= dst.Length
      requires 1 <= n <= MAX_INPUT_SIZE && source + n <= |mem| && Prepared(n, dictSmall)
      ensures var kind := if n < LIMIT_64K then ByU16 else ByU32;
              var limited := TaskOf(mem, source, n, dst, maxOutputSize, LimitedOutput, kind, NoDict, dictSmall, acceleration, hash);
              var full := TaskOf(mem, source, n, dst, 0, NotLimited, kind, NoDict, dictSmall, acceleration, hash);
              && limited.Valid() && limited.Entries(hashTable[..], currentOffset + 1)
              && (maxOutputSize >= Bound(n) ==> full.Valid() && full.Entries(hashTable[..], currentOffset + 1))
    {
      var kind := if n < LIMIT_64K then ByU16 else ByU32;
      var offset := if kind == ByU32 && currentOffset != 0 then currentOffset - KB64 else currentOffset;
      var limited := TaskOf(mem, source, n, dst, maxOutputSize, LimitedOutput, kind, NoDict, dictSmall, acceleration, hash);
      IdleEntries(limited, hashTable[..], tableType, offset);
      if maxOutputSize >= Bound(n) {
        var full := TaskOf(mem, source, n, dst, 0, NotLimited, kind, NoDict, dictSmall, acceleration, hash);
        IdleEntries(full, hashTable[..], tableType, offset);
      }
    }

    /** LZ4_compress_fast_extState_fastReset: the table of the calls before is used
        again, and what they left in it is never taken for a match. */
    method FastExtStateFastReset(mem: seq<byte>, source: nat, dst: array<byte>, srcSize: int, dstCapacity: int,
                                 acceleration: int, hash: seq<byte> -> nat)
      returns (r: nat)
      requires Initialised() && dstCapacity <= dst.Length && srcSize < 0x8000_0000
      requires 0 <= srcSize <= MAX_INPUT_SIZE ==> source + srcSize <= |mem|
      modifies this, hashTable, dst
      ensures Initialised()
      ensures r == 0 ==> Refused(srcSize, dstCapacity, LimitedOutput)
      ensures r > 0 ==> Accepted(mem, source, srcSize, dstCapacity, LimitedOutput, dst[..], r, srcSize, [])
    {
      var kind := if srcSize < LIMIT_64K then ByU16 else ByU32;
      PrepareTable(srcSize, kind);
      var dictSmall := kind == ByU16 && currentOffset != 0;
      r := FromPrepared(mem, source, dst, srcSize, dstCapacity, dictSmall, Acceleration(acceleration), hash);
    }

    /** LZ4_compress_destSize_extState_internal: leaves the state unusable. */
    method DestSizeInternal(mem: seq<byte>, source: nat, dst: array<byte>, srcSize: int, targetDstSize: int,
                            acceleration: int, hash: seq<byte> -> nat)
      returns (r: nat, consumed: nat)
      requires hashTable.Length == HASH_TABLE_SLOTS && targetDstSize <= dst.Length
      requires 0 <= srcSize <= MAX_INPUT_SIZE ==> source + srcSize <= |mem|
      modifies this, hashTable, dst
      ensures r == 0 ==> Refused(srcSize, targetDstSize, FillOutput)
      ensures r > 0 ==> Accepted(mem, source, srcSize, targetDstSize, FillOutput, dst[..], r, consumed, [])
      ensures r > 0 && targetDstSize >= CompressBound(srcSize) ==> consumed == srcSize
    {
      Init();
      if targetDstSize >= CompressBound(srcSize) {
        r := FastExtState(mem, source, dst, srcSize, targetDstSize, acceleration, hash);
        consumed := if srcSize < 0 then 0 else srcSize;
      } else {
        var kind := if srcSize < LIMIT_64K then ByU16 else ByU32;
        if 1 <= srcSize <= MAX_INPUT_SIZE {
          ghost var t := TaskOf(mem, source, srcSize, dst, targetDstSize, FillOutput, kind, NoDict, false,
                                Acceleration(acceleration), hash);
          IdleEntries(t, hashTable[..], ClearedTable, 0);
        }
        r, consumed := CompressGeneric(mem, source, dst, srcSize, targetDstSize, FillOutput, kind, NoDict, false,
                                       Acceleration(acceleration), hash);
      }
    }

    // -------------------------------------------------------------------
    // Streaming
    // -------------------------------------------------------------------

    /** The state between two blocks of a stream whose source lies in `mem`. */
    ghost predicate Streaming(mem: seq<byte>)
      reads this, hashTable
    {
      && Continuing()
      && (dictSize > 0 ==> 0 <= dictionary && dictionary + dictSize <= |mem|)
    }

    /** The dictionary in use. */
    ghost function Dictionary(mem: seq<byte>): seq<byte>
      requires Streaming(mem)
      reads this, hashTable
    {
      if dictSize == 0 then [] else mem[dictionary..dictionary + dictSize]
    }

    /** LZ4_resetStream_fast */
    method ResetFast()
      requires Initialised()
      modifies this, hashTable
      ensures Streaming([]) && dictSize == 0
    {
      PrepareTable(0, ByU32);
    }

    /** The rescaling of the table: positions keep their distance from the end of
        the dictionary, those more than 64 KB before it are dropped. */
    method RescaleTable(delta: nat)
      requires Idle(hashTable[..], tableType, currentOffset) && tableType != ByU16
      modifies hashTable
      ensures forall k :: 0 <= k < HASH_TABLE_SLOTS ==>
                hashTable[k] == if old(hashTable[k]) < delta then 0 else old(hashTable[k]) - delta
      ensures hashTable.Length == HASH_TABLE_SLOTS
    {
      ghost var tab := hashTable[..];
      var i := 0;
      while i < HASH_SIZE_U32
        invariant 0 <= i <= HASH_SIZE_U32
        invariant forall k :: 0 <= k < i ==> hashTable[k] == if tab[k] < delta then 0 else tab[k] - delta
        invariant forall k :: i <= k < HASH_TABLE_SLOTS ==> hashTable[k] == tab[k]
      {
        hashTable[i] := if hashTable[i] < delta then 0 else hashTable[i] - delta;
        i := i + 1;
      }
      assert forall k :: HASH_SIZE_U32 <= k < HASH_TABLE_SLOTS ==> tab[k] == 0;
    }

    /** LZ4_renormDictT */
    method RenormDict(nextSize: nat, ghost mem: seq<byte>)
      requires Streaming(mem) && nextSize < 0x8000_0000
      modifies this, hashTable
      ensures Streaming(mem) && tableType == old(tableType)
      ensures currentOffset + nextSize <= 0x8000_0000 || currentOffset == KB64
      ensures dictionary + dictSize == old(dictionary + dictSize)
      ensures dictSize == old(dictSize) || (dictSize == KB64 < old(dictSize))
      ensures old(currentOffset) >= KB64 && currentOffset != old(currentOffset) ==>
                forall k :: 0 <= k < HASH_TABLE_SLOTS ==>
                  hashTable[k] == if old(hashTable[k] + KB64 < currentOffset) then 0
                                  else old(hashTable[k]) + currentOffset - old(currentOffset)
    {
      if currentOffset + nextSize > 0x8000_0000 {
        var delta := (currentOffset - KB64) % 0x1_0000_0000;
        var dictEnd := dictionary + dictSize;
        RescaleTable(delta);
        currentOffset := KB64;
        if dictSize > KB64 {
          dictSize := KB64;
        }
        dictionary := dictEnd - dictSize;
      }
    }

    /** How much of a dictionary there is to build on: the source may be written over its
        beginning, and fewer than four bytes are worth nothing unless the source follows them. */
    static function Usable(dictionary: int, dictSize: nat, source: nat, inputSize: nat): int {
      var dictEnd, sourceEnd := dictionary + dictSize, source + inputSize;
      var k := if dictionary < sourceEnd < dictEnd then Min(dictEnd - sourceEnd, KB64) else dictSize;
      if k < 4 && source != dictEnd then 0 else k
    }

    /** Invalidate tiny dictionaries; check overlapping input and dictionary space. */
    method FixDictionary(source: nat, inputSize: nat, ghost mem: seq<byte>) returns (dictEnd: int)
      requires Streaming(mem) && source <= |mem|
      requires dictSize == 0 || dictionary + dictSize <= source || source + inputSize < dictionary + dictSize
      modifies this
      ensures Streaming(mem) && currentOffset == old(currentOffset) && tableType == old(tableType)
      ensures dictSize <= old(dictSize)
      ensures inputSize > 0 ==> dictSize == Usable(old(dictionary), old(dictSize), source, inputSize)
      ensures dictSize > 0 ==> dictionary + dictSize == old(dictionary + dictSize) == dictEnd
      ensures dictSize > 0 ==> dictionary + dictSize <= source || source + inputSize <= dictionary
      ensures dictEnd == source ==> dictionary + dictSize == source && dictionary >= 0
      ensures dictEnd != source && inputSize > 0 ==>
                && 0 <= dictionary && dictionary + dictSize <= |mem| && dictionary != source
                && (dictSize == 0 || dictSize >= 4)
    {
      dictEnd := if dictSize != 0 then dictionary + dictSize else NULL;
      if dictSize < 4 && dictEnd != source && inputSize > 0 {
        dictSize, dictionary, dictEnd := 0, source, source;
      }
      var sourceEnd := source + inputSize;
      if sourceEnd > dictionary && sourceEnd < dictEnd {
        dictSize := dictEnd - sourceEnd;
        if dictSize > KB64 {
          dictSize := KB64;
        }
        if dictSize < 4 {
          dictSize := 0;
        }
        dictionary := dictEnd - dictSize;
      }
    }

    /** Whether table entries may lie before the dictionary. */
    predicate SmallDict()
      reads this
    {
      dictSize < KB64 && dictSize < currentOffset
    }

    lemma StreamTask(mem: seq<byte>, source: nat, dst: array<byte>, n: nat, maxOutputSize: int, mode: DictMode,
                     acceleration: nat, hash: seq<byte> -> nat)
      requires Streaming(mem) && acceleration >= 1 && maxOutputSize <= dst.Length
      requires 1 <= n <= MAX_INPUT_SIZE && source + n <= |mem|
      requires currentOffset + n <= 0x8000_0000 || currentOffset == KB64
      requires mode == WithPrefix64k || mode == UsingExtDict
      requires mode == WithPrefix64k ==> dictionary + dictSize == source && dictionary >= 0
      requires mode == UsingExtDict ==> 0 <= dictionary && dictionary + dictSize <= |mem| && dictionary != source
                                        && (dictSize == 0 || dictSize >= 4)
      ensures var t := TaskOf(mem, source, n, dst, maxOutputSize, LimitedOutput, ByU32, mode, SmallDict(), acceleration, hash);
              t.Valid() && t.Entries(hashTable[..], currentOffset + 1)
    {
      var t := TaskOf(mem, source, n, dst, maxOutputSize, LimitedOutput, ByU32, mode, SmallDict(), acceleration, hash);
      IdleEntries(t, hashTable[..], tableType, currentOffset);
    }

    /** What is asked of the source: it must not overwrite the end of the history. */
    ghost predicate Placed(mem: seq<byte>, source: nat, inputSize: nat)
      reads this
    {
      && source <= |mem| && (inputSize <= MAX_INPUT_SIZE ==> source + inputSize <= |mem|)
      && (dictSize == 0 || dictionary + dictSize <= source || source + inputSize < dictionary + dictSize)
    }

    /** `Streaming`, before it is settled where the dictionary is. */
    ghost predicate Continuing()
      reads this, hashTable
    {
      && Idle(hashTable[..], tableType, currentOffset) && tableType != ByU16
      && dictSize <= currentOffset <= 0x8000_0000
    }

    /** Prefix mode, and external dictionary mode. */
    method ContinueWith(mem: seq<byte>, source: nat, dst: array<byte>, inputSize: nat, maxOutputSize: int,
                        mode: DictMode, acceleration: nat, hash: seq<byte> -> nat)
      returns (r: nat)
      requires Streaming(mem) && maxOutputSize <= dst.Length && acceleration >= 1
      requires source <= |mem| && (inputSize <= MAX_INPUT_SIZE ==> source + inputSize <= |mem|)
      requires currentOffset + inputSize <= 0x8000_0000 || currentOffset == KB64
      requires mode == WithPrefix64k || mode == UsingExtDict
      requires mode == WithPrefix64k ==> dictionary + dictSize == source && dictionary >= 0
      requires mode == UsingExtDict && inputSize > 0 ==>
                 && 0 <= dictionary && dictionary + dictSize <= |mem| && dictionary != source
                 && (dictSize == 0 || dictSize >= 4)
      modifies this, hashTable, dst
      ensures r == 0 ==> Refused(inputSize, maxOutputSize, LimitedOutput)
      ensures r > 0 ==> Accepted(mem, source, inputSize, maxOutputSize, LimitedOutput, dst[..], r, inputSize,
                                 old(Dictionary(mem)))
      ensures r > 0 ==> dictionary == old(dictionary) && dictSize == old(dictSize) + inputSize
      ensures r > 0 ==> Continuing()
    {
      if 1 <= inputSize <= MAX_INPUT_SIZE {
        StreamTask(mem, source, dst, inputSize, maxOutputSize, mode, acceleration, hash);
      }
      assert History(mem, source, dictionary, mode, dictSize) == Dictionary(mem);
      var consumed;
      r, consumed := CompressGeneric(mem, source, dst, inputSize, maxOutputSize, LimitedOutput, ByU32, mode,
                                     SmallDict(), acceleration, hash);
    }

    /** Which part of the dictionary serves as history: `h`, which ends where the
        dictionary ended, and lies outside of the source. */
    method SettleDictionary(source: nat, inputSize: nat, ghost mem: seq<byte>) returns (dictEnd: int, ghost h: seq<byte>)
      requires Streaming(mem) && inputSize < 0x8000_0000 && Placed(mem, source, inputSize)
      modifies this, hashTable
      ensures Streaming(mem) && h == Dictionary(mem) && HistoryAt(h, mem, old(dictionary + dictSize), old(dictSize), source, inputSize)
      ensures currentOffset + inputSize <= 0x8000_0000 || currentOffset == KB64
      ensures dictEnd == source ==> dictionary + dictSize == source && dictionary >= 0
      ensures dictEnd != source && inputSize > 0 ==>
                && 0 <= dictionary && dictionary + dictSize <= |mem| && dictionary != source
                && (dictSize == 0 || dictSize >= 4)
      ensures dictSize > 0 ==> dictionary + dictSize == old(dictionary + dictSize) == dictEnd
      ensures inputSize > 0 ==> Min(|h|, KB64) == Min(Usable(old(dictionary), old(dictSize), source, inputSize), KB64)
    {
      RenormDict(inputSize, mem);
      dictEnd := FixDictionary(source, inputSize, mem);
      h := Dictionary(mem);
    }

    /** LZ4_compress_fast_continue. `h`, the end of the old dictionary, served as history. */
    method FastContinue(mem: seq<byte>, source: nat, dst: array<byte>, inputSize: nat, maxOutputSize: int,
                        acceleration: int, hash: seq<byte> -> nat)
      returns (r: nat, ghost h: seq<byte>)
      requires Streaming(mem) && maxOutputSize <= dst.Length && inputSize < 0x8000_0000
      requires Placed(mem, source, inputSize)
      modifies this, hashTable, dst
      ensures r == 0 ==> Refused(inputSize, maxOutputSize, LimitedOutput)
      ensures HistoryAt(h, mem, old(dictionary + dictSize), old(dictSize), source, inputSize)
      ensures r > 0 ==> Accepted(mem, source, inputSize, maxOutputSize, LimitedOutput, dst[..], r, inputSize, h)
      ensures inputSize > 0 ==> Min(|h|, KB64) == Min(Usable(old(dictionary), old(dictSize), source, inputSize), KB64)
      ensures r > 0 ==> Streaming(mem) && dictSize == inputSize + if source == old(dictionary + dictSize) then |h| else 0
      ensures r > 0 && dictSize > 0 ==> dictionary + dictSize == source + inputSize
    {
      var dictEnd;
      dictEnd, h := SettleDictionary(source, inputSize, mem);
      if dictEnd == source {
        r := ContinueWith(mem, source, dst, inputSize, maxOutputSize, WithPrefix64k, Acceleration(acceleration), hash);
      } else {
        r := ContinueWith(mem, source, dst, inputSize, maxOutputSize, UsingExtDict, Acceleration(acceleration), hash);
        dictionary, dictSize := source, inputSize;
      }
    }

    /** LZ4_loadDict and, with a second pass, LZ4_loadDictSlow: the last 64 KB of a
        dictionary become the history. */
    method LoadDict(mem: seq<byte>, dict: nat, size: nat, slow: bool, hash: seq<byte> -> nat) returns (r: nat)
      requires hashTable.Length == HASH_TABLE_SLOTS && dict + size <= |mem|
      modifies this, hashTable
      ensures Streaming(mem) && dictSize == r
      ensures r == if size < 8 then 0 else Min(size, KB64)
      ensures Dictionary(mem) == mem[dict + size - r..dict + size]
      ensures r > 0 ==> dictionary + dictSize == dict + size
    {
      Init();
      currentOffset := currentOffset + KB64;
      if size < 8 {
        return 0;
      }
      var dictEnd := dict + size;
      var p: nat := if size > KB64 then dictEnd - KB64 else dict;
      dictionary, dictSize, tableType := p, dictEnd - p, ByU32;
      FillTable(mem, p, dictEnd, 3, true, hash);
      if slow {
        FillTable(mem, p, dictEnd, 1, false, hash);
      }
      r := dictSize;
    }

    /** One pass over the dictionary; without `overwrite`, entries in use are kept. */
    method FillTable(mem: seq<byte>, p0: nat, dictEnd: nat, step: nat, overwrite: bool, hash: seq<byte> -> nat)
      requires 8 <= dictEnd - p0 <= currentOffset == KB64 && dictEnd <= |mem| && step >= 1
      requires tableType == ByU32 && Idle(hashTable[..], ByU32, currentOffset)
      modifies hashTable
      ensures Idle(hashTable[..], ByU32, currentOffset)
    {
      var p, idx32 := p0, currentOffset - (dictEnd - p0);
      while p <= dictEnd - 8
        invariant p0 <= p && idx32 == currentOffset - dictEnd + p
        invariant Idle(hashTable[..], ByU32, currentOffset)
        decreases dictEnd - p
      {
        var h := hash(mem[p..p + 8]) % HASH_SIZE_U32;
        if overwrite || hashTable[h] <= currentOffset - KB64 {
          hashTable[h] := idx32;
        }
        p, idx32 := p + step, idx32 + step;
      }
    }
  }

  /** LZ4_compress_fast */
  method CompressFast(mem: seq<byte>, source: nat, dst: array<byte>, srcSize: int, dstCapacity: int,
                      acceleration: int, hash: seq<byte> -> nat)
    returns (r: nat)
    requires dstCapacity <= dst.Length
    requires 0 <= srcSize <= MAX_INPUT_SIZE ==> source + srcSize <= |mem|
    modifies dst
    ensures r == 0 ==> Refused(srcSize, dstCapacity, LimitedOutput)
    ensures r > 0 ==> Accepted(mem, source, srcSize, dstCapacity, LimitedOutput, dst[..], r, srcSize, [])
  {
    var ctx := new Stream();
    r := ctx.FastExtState(mem, source, dst, srcSize, dstCapacity, acceleration, hash);
  }

  /** LZ4_compress_destSize: as much of the source as fits. */
  method CompressDestSize(mem: seq<byte>, source: nat, dst: array<byte>, srcSize: int, targetDstSize: int, hash: seq<byte> -> nat)
    returns (r: nat, consumed: nat)
    requires targetDstSize <= dst.Length
    requires 0 <= srcSize <= MAX_INPUT_SIZE ==> source + srcSize <= |mem|
    modifies dst
    ensures r == 0 ==> Refused(srcSize, targetDstSize, FillOutput)
    ensures r > 0 ==> Accepted(mem, source, srcSize, targetDstSize, FillOutput, dst[..], r, consumed, [])
    ensures r > 0 && targetDstSize >= CompressBound(srcSize) ==> consumed == srcSize
  {
    var ctx := new Stream();
    r, consumed := ctx.DestSizeInternal(mem, source, dst, srcSize, targetDstSize, 1, hash);
  }

  lemma HistoryOfTask(t: Task)
    requires t.Valid()
    ensures History(t.mem, t.source, t.dictionary, t.mode, t.dictSize) == t.Hist()
  {
  }

  lemma TaskEncodes(t: Task, b: seq<byte>, consumed: nat)
    requires t.Valid() && Compressed(t, t.Text(), b, consumed)
    ensures Encodes(b, History(t.mem, t.source, t.dictionary, t.mode, t.dictSize), t.mem[t.source..t.source + consumed])
  {
    HistoryOfTask(t);
    TextEncodes(b, t.Hist(), t.mem[t.source..t.source + t.n], t.mem[t.source..t.source + consumed]);
  }

  lemma TextEncodes(b: seq<byte>, h: seq<byte>, y: seq<byte>, x: seq<byte>)
    requires x <= y && Decode(b, (h + y)[..|h|]) == Some((h + y)[..|h| + |x|]) && WellFormedBlock(b, (h + y)[..|h|])
    ensures Encodes(b, h, x)
  {
    assert (h + y)[..|h|] == h;
    assert (h + y)[..|h| + |x|] == h + x;
    EncodesOn(b, h, x);
  }

  /** A block of no bytes. */
  lemma EmptyBlock(b: seq<byte>, h: seq<byte>, x: seq<byte>)
    requires b == [0] && x == []
    ensures Encodes(b, h, x)
  {
    OneSequence(b, 0, h, |h|);
    assert ParseAt(b, 0) == Last(1, 0);
    assert h + b[1..1] == h && h + x == h;
    EncodesOn(b, h, x);
  }

  /** The stretch of memory that serves as history. */
  ghost function History(mem: seq<byte>, source: nat, dictionary: int, mode: DictMode, dictSize: nat): seq<byte> {
    if mode == UsingExtDict && 0 <= dictionary && dictionary + dictSize <= |mem| then mem[dictionary..dictionary + dictSize]
    else if mode == WithPrefix64k && dictSize <= source <= |mem| then mem[source - dictSize..source]
    else []
  }

  /** No block was written: the size is not supported, or the capacity too small. */
  ghost predicate Refused(srcSize: int, dstCapacity: int, directive: Directive) {
    || srcSize < 0 || srcSize > MAX_INPUT_SIZE
    || (directive == LimitedOutput && dstCapacity < CompressBound(srcSize))
    || (directive == FillOutput && dstCapacity < 1)
  }

  /** A block was written. */
  ghost predicate Accepted(mem: seq<byte>, source: nat, srcSize: int, dstCapacity: int, directive: Directive,
                           d: seq<byte>, r: nat, consumed: int, h: seq<byte>)
  {
    && r <= |d| && 0 <= consumed <= srcSize <= MAX_INPUT_SIZE && source + consumed <= |mem|
    && r <= CompressBound(srcSize) && (directive != NotLimited ==> r <= dstCapacity)
    && (directive != FillOutput ==> consumed == srcSize) && (consumed == 0 ==> d[..r] == [0])
    && (directive == FillOutput && consumed < srcSize ==> dstCapacity <= r + 1)
    && Encodes(d[..r], h, mem[source..source + consumed])
  }
}
