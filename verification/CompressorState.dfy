/** What one call of the block compressor works on. All pointers are indices into
    the memory `mem` that holds the source and its history; the output goes to
    dst[0..]; indices stored in the hash table count from `startIndex` for the
    first byte of the source. */
module CompressorState {
  import opened Bytes
  import opened BlockFormat
  import opened BlockEncoding
  import opened DecoderState
  import opened Stretches

  const MAX_INPUT_SIZE := 0x7E000000
  const HASH_TABLE_SLOTS := 8192
  const HASH_SIZE_U32 := 4096
  const KB64 := 65536

  datatype TableType = ClearedTable | ByU32 | ByU16
  datatype Directive = NotLimited | LimitedOutput | FillOutput

  /** LZ4_COMPRESSBOUND for a size that is supported. */
  function Bound(n: nat): nat {
    n + n / 255 + 16
  }

  datatype Task = Task(mem: seq<byte>, source: nat, n: nat, dst: array<byte>, olimit: int,
                       directive: Directive, table: array<nat>, kind: TableType, hash: seq<byte> -> nat,
                       mode: DictMode, dictSmall: bool, dictionary: int, dictSize: nat,
                       startIndex: nat, acceleration: nat)
  {
    ghost predicate Valid() {
      && 1 <= n <= MAX_INPUT_SIZE && source + n <= |mem|
      && (if directive == NotLimited then dst.Length >= Bound(n) else olimit <= dst.Length)
      && table.Length == HASH_TABLE_SLOTS
      && (kind == ByU32 || kind == ByU16)
      && dictSize <= startIndex && acceleration >= 1
      && startIndex + n < 0x1_0000_0000 - KB64
      && (kind == ByU16 ==> mode == NoDict && n < 65536 + 11 && (startIndex == 0 || startIndex + n < 65535))
      && (directive == FillOutput ==> startIndex == 0)
      && ValidHistory()
    }

    /** Where the history lies. */
    ghost predicate ValidHistory() {
      match mode
      case NoDict => dictSize == 0
      case WithPrefix64k => dictSize <= source
      case UsingExtDict =>
        && 0 <= dictionary && dictionary + dictSize <= |mem|
        && dictionary != source && (dictSize == 0 || dictSize >= 4)
    }

    function Iend(): nat {
      source + n
    }

    function MflimitPlusOne(): int {
      source + n - MFLIMIT + 1
    }

    function Matchlimit(): int {
      source + n - LASTLITERALS
    }

    function Slots(): nat {
      if kind == ByU16 then HASH_TABLE_SLOTS else HASH_SIZE_U32
    }

    /** LZ4_hashPosition: eight bytes are hashed into 4096 slots, or four into 8192. */
    function Key(p: nat): (h: nat)
      requires p + 8 <= |mem|
      ensures h < Slots()
    {
      if kind == ByU16 then hash(mem[p..p + 4]) % HASH_TABLE_SLOTS else hash(mem[p..p + 8]) % HASH_SIZE_U32
    }

    function Index(ip: int): int {
      startIndex + (ip - source)
    }

    function PrefixIdxLimit(): int {
      startIndex - dictSize
    }

    /** The bytes before the source that matches may refer to. */
    ghost function Hist(): (h: seq<byte>)
      requires Valid()
      ensures |h| == dictSize
    {
      if mode == UsingExtDict then mem[dictionary..dictionary + dictSize] else mem[source - dictSize..source]
    }

    /** History and source: what the block is to be decoded to. */
    ghost function Text(): seq<byte>
      requires Valid()
    {
      Hist() + mem[source..source + n]
    }

    function HistoryStart(): int {
      if mode == UsingExtDict then dictionary else source - dictSize
    }

    /** `text` is the text: first the history, then the source. */
    ghost predicate Reads(text: seq<byte>) {
      && |text| == dictSize + n
      && Same(text, 0, mem, HistoryStart(), dictSize)
      && Same(text, dictSize, mem, source, n)
    }

    /** The position of `ip` in the text. */
    function At(ip: int): int {
      dictSize + (ip - source)
    }

    /** `match` points to position `m` of the text; `lowLimit` says in which part. */
    ghost predicate Located(match_: int, lowLimit: int, m: int) {
      if mode == UsingExtDict && lowLimit == dictionary
      then 0 <= m && m + 4 <= dictSize && match_ == dictionary + m
      else
        && lowLimit == source - (if mode == WithPrefix64k then dictSize else 0)
        && match_ == source - dictSize + m
        && lowLimit <= match_
    }

    /** `k` bytes at `m` occur again at `ip`, within reach. */
    ghost predicate Repeats(text: seq<byte>, m: int, ip: int, k: int) {
      && source <= ip && 0 <= k && ip + k <= Iend()
      && 0 <= m < At(ip) <= m + DISTANCE_MAX
      && Same(text, m, text, At(ip), k)
    }

    /** What slot `k` may hold when all positions before `limit` may have been entered. */
    ghost predicate Entry(k: nat, e: nat, limit: int)
      requires Valid()
    {
      && e < limit && (k >= Slots() ==> e == 0)
      && (e < startIndex ==> e == 0 || e + 8 <= startIndex)
      && (e < PrefixIdxLimit() ==> dictSmall || e + DISTANCE_MAX < startIndex)
      && (e >= startIndex && e > 0 ==> e + MFLIMIT <= startIndex + n && Key(source + (e - startIndex)) == k)
    }

    ghost predicate Entries(tab: seq<nat>, limit: int)
      requires Valid()
    {
      |tab| == HASH_TABLE_SLOTS && forall k :: 0 <= k < HASH_TABLE_SLOTS ==> Entry(k, tab[k], limit)
    }
  }

  lemma TextReads(t: Task)
    requires t.Valid()
    ensures t.Reads(t.Text())
  {
    SameAppended(t.Hist(), t.mem[t.source..t.source + t.n], t.mem, t.HistoryStart(), t.source);
  }

  lemma SameAppended(x: seq<byte>, y: seq<byte>, s: seq<byte>, a: nat, b: nat)
    requires a + |x| <= |s| && b + |y| <= |s| && x == s[a..a + |x|] && y == s[b..b + |y|]
    ensures Same(x + y, 0, s, a, |x|) && Same(x + y, |x|, s, b, |y|)
  {
    assert (x + y)[0..0 + |x|] == x;
    assert (x + y)[|x|..|x| + |y|] == y;
    SameSlices(x + y, 0, s, a, |x|);
    SameSlices(x + y, |x|, s, b, |y|);
  }

  /** The source, and a prefix before it, appear in the text as they are. */
  lemma TextOfSource(t: Task, text: seq<byte>, i: int, k: nat)
    requires t.Valid() && t.Reads(text) && i + k <= t.Iend()
    requires (if t.mode == UsingExtDict then t.source else t.source - t.dictSize) <= i
    ensures Same(text, t.At(i), t.mem, i, k)
  {
    if t.mode != UsingExtDict {
      SameJoin(text, 0, t.mem, t.HistoryStart(), t.dictSize, t.n);
      SameMiddle(text, 0, t.mem, t.HistoryStart(), t.dictSize + t.n, t.At(i), k);
    } else {
      SameMiddle(text, t.dictSize, t.mem, t.source, t.n, i - t.source, k);
    }
  }

  lemma SameMiddle(s: seq<byte>, a: int, t: seq<byte>, b: int, n: nat, d: nat, k: nat)
    requires Same(s, a, t, b, n) && d + k <= n
    ensures Same(s, a + d, t, b + d, k)
  {
    SameSplit(s, a, t, b, n, d);
    SameSplit(s, a + d, t, b + d, n - d, k);
  }

  lemma TextOfDictionary(t: Task, text: seq<byte>, m: nat, k: nat)
    requires t.Valid() && t.Reads(text) && t.mode == UsingExtDict && m + k <= t.dictSize
    ensures Same(text, m, t.mem, t.dictionary + m, k)
  {
    SameMiddle(text, 0, t.mem, t.dictionary, t.dictSize, m, k);
  }

  /** The text at a match that stays inside its part. */
  lemma TextOfMatch(t: Task, text: seq<byte>, match_: int, lowLimit: int, m: int, k: nat)
    requires t.Valid() && t.Reads(text) && t.Located(match_, lowLimit, m)
    requires m + k <= if t.mode == UsingExtDict && lowLimit == t.dictionary then t.dictSize else t.dictSize + t.n
    ensures Same(text, m, t.mem, match_, k)
  {
    if t.mode == UsingExtDict && lowLimit == t.dictionary {
      TextOfDictionary(t, text, m, k);
    } else {
      TextOfSource(t, text, match_, k);
    }
  }
}
