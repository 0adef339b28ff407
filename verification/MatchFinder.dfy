/** Finding a match: the hash table, the accelerating search, the backward
    extension and the match length. */
module MatchFinder {
  import opened Bytes
  import opened BlockFormat
  import opened DecoderState
  import opened CompressorState
  import opened MatchCount
  import opened Stretches

  /** LZ4_putIndexOnHash: slots are as wide as the table type says. */
  method PutIndex(t: Task, idx: nat, h: nat)
    requires t.Valid() && h < t.table.Length
    requires idx < if t.kind == ByU16 then 0x1_0000 else 0x1_0000_0000
    modifies t.table
    ensures t.table[..] == old(t.table[..])[h := idx]
  {
    t.table[h] := if t.kind == ByU16 then idx % 0x1_0000 else idx % 0x1_0000_0000;
    assert t.table[h] == idx;
  }

  /** Enters the position `p` at its hash. */
  method PutPosition(t: Task, p: nat, h: nat, ghost limit: int)
    requires t.Valid() && t.source <= p && p + MFLIMIT <= t.Iend() && h == t.Key(p)
    requires t.Entries(t.table[..], limit) && t.Index(p) < limit
    modifies t.table
    ensures t.table[..] == old(t.table[..])[h := t.Index(p)]
    ensures t.Entries(t.table[..], limit)
  {
    PutIndex(t, t.Index(p), h);
  }

  /** An index that passes the checks points into the text, within reach. */
  lemma Candidate(t: Task, h: nat, e: nat, ip: nat)
    requires t.Valid() && t.source < ip && ip + MFLIMIT <= t.Iend()
    requires t.Entry(h, e, t.Index(ip))
    requires t.dictSmall ==> e >= t.PrefixIdxLimit()
    requires t.kind != ByU16 ==> e + DISTANCE_MAX >= t.Index(ip)
    ensures var m := e - t.PrefixIdxLimit();
            && 0 <= m < t.At(ip) <= m + DISTANCE_MAX
            && t.At(ip) - m == t.Index(ip) - e
            && (t.mode == UsingExtDict && e < t.startIndex ==> t.Located(t.dictionary + m, t.dictionary, m))
            && (t.mode == UsingExtDict && e >= t.startIndex ==> t.Located(t.source - t.dictSize + m, t.source, m))
            && (t.mode == WithPrefix64k ==> t.Located(t.source - t.dictSize + m, t.source - t.dictSize, m))
            && (t.mode == NoDict ==> t.Located(t.source - t.dictSize + m, t.source, m))
  {
  }

  lemma {:induction false} FourRepeat(t: Task, text: seq<byte>, match_: int, lowLimit: int, m: int, ip: nat)
    requires t.Valid() && t.Reads(text) && t.source < ip && ip + MFLIMIT <= t.Iend()
    requires 0 <= m < t.At(ip) <= m + DISTANCE_MAX && t.Located(match_, lowLimit, m)
    ensures 0 <= match_ && match_ + 4 <= |t.mem|
    ensures t.mem[match_..match_ + 4] == t.mem[ip..ip + 4] <==> t.Repeats(text, m, ip, 4)
  {
    SameSlices(t.mem, match_, t.mem, ip, 4);
    TextOfMatch(t, text, match_, lowLimit, m, 4);
    TextOfSource(t, text, ip, 4);
    SameBoth(text, m, t.At(ip), t.mem, match_, ip, 4);
  }

  /** Looks the position `ip` up, enters it, and says whether a match was found. */
  method Probe(t: Task, ip: nat, h: nat, ghost text: seq<byte>)
    returns (ok: bool, match_: int, lowLimit: int, offset: int, ghost m: int)
    requires t.Valid() && t.Reads(text) && t.source < ip && ip + MFLIMIT <= t.Iend() && h == t.Key(ip)
    requires t.Entries(t.table[..], t.Index(ip))
    modifies t.table
    ensures old(t.table[h]) < t.Index(ip)
    ensures t.table[..] == old(t.table[..])[h := t.Index(ip)]
    ensures t.Entries(t.table[..], t.Index(ip + 1))
    ensures m == old(t.table[h]) - t.PrefixIdxLimit() && (ok <==> t.Repeats(text, m, ip, 4))
    ensures ok ==> t.Located(match_, lowLimit, m) && offset == t.At(ip) - m
  {
    var matchIndex := t.table[h];
    var current: nat := t.Index(ip);
    m := matchIndex - t.PrefixIdxLimit();
    assert t.Entry(h, t.table[..][h], t.Index(ip));
    lowLimit := t.source - if t.mode == WithPrefix64k then t.dictSize else 0;
    match_ := t.source - t.startIndex + matchIndex;
    if t.mode == UsingExtDict && matchIndex < t.startIndex {
      match_ := t.dictionary + t.dictSize - t.startIndex + matchIndex;
      lowLimit := t.dictionary;
    }
    PutPosition(t, ip, h, t.Index(ip + 1));
    ok, offset := false, current - matchIndex;
    if t.dictSmall && matchIndex < t.PrefixIdxLimit() {
      return;
    }
    if t.kind != ByU16 && matchIndex + DISTANCE_MAX < current {
      return;
    }
    Candidate(t, h, matchIndex, ip);
    FourRepeat(t, text, match_, lowLimit, m, ip);
    ok := t.mem[match_..match_ + 4] == t.mem[ip..ip + 4];
  }

  /** The first position looked up from `p` on, in ever longer steps, whose entry repeats;
      every position looked up is entered. */
  ghost function FirstHit(t: Task, text: seq<byte>, tab: seq<nat>, p: nat, step: nat, nb: nat): Option<nat>
    requires t.Valid() && |tab| == HASH_TABLE_SLOTS && t.source < p <= t.MflimitPlusOne() && step >= 1 && nb >= 64
    decreases t.Iend() - p, 1
  {
    if p + step > t.MflimitPlusOne() then None else HitAt(t, text, tab, p, step, nb)
  }

  ghost function HitAt(t: Task, text: seq<byte>, tab: seq<nat>, p: nat, step: nat, nb: nat): Option<nat>
    requires t.Valid() && |tab| == HASH_TABLE_SLOTS && t.source < p && p + step <= t.MflimitPlusOne() && step >= 1 && nb >= 64
    decreases t.Iend() - p, 0
  {
    if t.Repeats(text, tab[t.Key(p)] - t.PrefixIdxLimit(), p, 4) then Some(p)
    else FirstHit(t, text, tab[t.Key(p) := t.Index(p)], p + step, nb / 64, nb + 1)
  }

  /** One position of the search. */
  method LookUp(t: Task, ip: nat, h: nat, step: nat, nb: nat, forwardIp: nat, ghost hit: Option<nat>, ghost text: seq<byte>)
    returns (found: bool, match_: int, lowLimit: int, offset: int, ghost m: int)
    requires t.Valid() && t.Reads(text) && t.source < ip && step >= 1 && nb >= 64
    requires forwardIp == ip + step <= t.MflimitPlusOne() && h == t.Key(ip)
    requires t.Entries(t.table[..], t.Index(ip)) && hit == FirstHit(t, text, t.table[..], ip, step, nb)
    modifies t.table
    ensures t.Entries(t.table[..], t.Index(ip + 1)) && t.Entries(t.table[..], t.Index(forwardIp))
    ensures found ==> t.Located(match_, lowLimit, m) && t.Repeats(text, m, ip, 4) && offset == t.At(ip) - m
    ensures hit == if found then Some(ip) else FirstHit(t, text, t.table[..], forwardIp, nb / 64, nb + 1)
  {
    assert hit == HitAt(t, text, t.table[..], ip, step, nb);
    found, match_, lowLimit, offset, m := Probe(t, ip, h, text);
  }

  /** The accelerating search from `ip0` on. */
  method FindMatch(t: Task, ip0: nat, forwardH0: nat, ghost text: seq<byte>)
    returns (found: bool, ip: nat, match_: int, lowLimit: int, offset: int, ghost m: int)
    requires t.Valid() && t.Reads(text) && t.source < ip0 <= t.MflimitPlusOne() && forwardH0 == t.Key(ip0)
    requires t.Entries(t.table[..], t.Index(ip0))
    modifies t.table
    ensures t.Entries(t.table[..], t.Index(t.Iend()))
    ensures found ==> ip0 <= ip < t.MflimitPlusOne() && t.Entries(t.table[..], t.Index(ip + 1))
    ensures found ==> t.Located(match_, lowLimit, m) && t.Repeats(text, m, ip, 4) && offset == t.At(ip) - m
    ensures FirstHit(t, text, old(t.table[..]), ip0, 1, t.acceleration * 64) == if found then Some(ip) else None
  {
    found, match_, lowLimit, offset, m := false, 0, 0, 0, 0;
    var forwardIp, forwardH := ip0, forwardH0;
    var step, searchMatchNb := 1, t.acceleration * 64;
    ghost var hit := FirstHit(t, text, t.table[..], ip0, step, searchMatchNb);
    while true
      invariant ip0 <= forwardIp <= t.MflimitPlusOne() && forwardH == t.Key(forwardIp)
      invariant !found && step >= 1 && searchMatchNb >= 64
      invariant t.Entries(t.table[..], t.Index(forwardIp))
      invariant hit == FirstHit(t, text, t.table[..], forwardIp, step, searchMatchNb)
      decreases t.Iend() - forwardIp
    {
      var h, lastStep, lastNb := forwardH, step, searchMatchNb;
      ip := forwardIp;
      forwardIp := forwardIp + step;
      step, searchMatchNb := searchMatchNb / 64, searchMatchNb + 1;
      if forwardIp > t.MflimitPlusOne() {
        return;
      }
      forwardH := t.Key(forwardIp);
      found, match_, lowLimit, offset, m := LookUp(t, ip, h, lastStep, lastNb, forwardIp, hit, text);
      if found {
        return;
      }
    }
  }

  lemma InMemory(t: Task, match_: int, lowLimit: int, m: int, ip: nat)
    requires t.Valid() && t.Located(match_, lowLimit, m) && m < t.At(ip) && ip <= t.Iend()
    ensures 0 <= lowLimit <= match_ <= |t.mem|
  {
  }

  lemma {:induction false} RepeatsBack(t: Task, text: seq<byte>, match_: int, lowLimit: int, m: int, ip: nat, k: nat)
    requires t.Valid() && t.Reads(text) && t.Located(match_, lowLimit, m) && t.Repeats(text, m, ip, k)
    requires t.source < ip && lowLimit < match_
    requires 0 < match_ <= |t.mem| && t.mem[ip - 1] == t.mem[match_ - 1]
    ensures t.Located(match_ - 1, lowLimit, m - 1) && t.Repeats(text, m - 1, ip - 1, k + 1)
  {
    TextOfMatch(t, text, match_ - 1, lowLimit, m - 1, 1);
    TextOfSource(t, text, ip - 1, 1);
    SameBoth(text, m - 1, t.At(ip) - 1, t.mem, match_ - 1, ip - 1, 1);
    SameJoin(text, m - 1, text, t.At(ip) - 1, 1, k);
  }

  /** Extends a match backwards over literals not yet encoded. */
  method CatchUp(t: Task, ip0: nat, match0: int, lowLimit: int, anchor: nat, ghost m0: int, ghost text: seq<byte>)
    returns (ip: nat, match_: int, ghost m: int)
    requires t.Valid() && t.Reads(text) && t.source <= anchor <= ip0
    requires t.Located(match0, lowLimit, m0) && t.Repeats(text, m0, ip0, 4)
    ensures anchor <= ip <= ip0 && m == m0 - (ip0 - ip)
    ensures t.Located(match_, lowLimit, m) && t.Repeats(text, m, ip, 4 + (ip0 - ip))
  {
    ip, match_, m := ip0, match0, m0;
    ghost var k := 4;
    InMemory(t, match_, lowLimit, m, ip);
    while ip > anchor && match_ > lowLimit && t.mem[ip - 1] == t.mem[match_ - 1]
      invariant anchor <= ip && k == 4 + ip0 - ip && m == m0 - ip0 + ip
      invariant 0 <= lowLimit <= match_ <= |t.mem|
      invariant t.Located(match_, lowLimit, m) && t.Repeats(text, m, ip, k)
    {
      RepeatsBack(t, text, match_, lowLimit, m, ip, k);
      ip, match_, m, k := ip - 1, match_ - 1, m - 1, k + 1;
    }
  }

  /** The match goes on from the end of the dictionary to the start of the source,
      as the text does. */
  method CountOn(t: Task, limit: nat, ghost text: seq<byte>) returns (more: nat)
    requires t.Valid() && t.Reads(text) && t.source < limit <= t.Matchlimit()
    ensures Run(text, t.dictSize, t.At(limit), t.Matchlimit() - limit, more)
  {
    var k := t.Matchlimit() - limit;
    TextOfSource(t, text, t.source, k);
    TextOfSource(t, text, limit, k);
    more := CountStretch(t.mem, t.source, limit, k, text, t.dictSize, t.At(limit));
  }

  lemma {:induction false} MatchInText(t: Task, text: seq<byte>, match_: int, lowLimit: int, m: int, k: nat)
    requires t.Valid() && t.Reads(text) && t.Located(match_, lowLimit, m) && 4 <= k
    requires m + k <= if t.mode == UsingExtDict && lowLimit == t.dictionary then t.dictSize else t.dictSize + t.n
    ensures 0 <= match_ && Same(text, m + 4, t.mem, match_ + 4, k - 4)
  {
    TextOfMatch(t, text, match_, lowLimit, m, k);
    SameSplit(text, m, t.mem, match_, k, 4);
  }

  /** The count up to the end of the part of the text that the match lies in. */
  method CountUpTo(t: Task, ip: nat, match_: int, lowLimit: int, limit: nat, ghost m: int, ghost text: seq<byte>)
    returns (c: nat)
    requires t.Valid() && t.Reads(text) && t.Located(match_, lowLimit, m) && t.source <= ip && m < t.At(ip)
    requires ip + MINMATCH <= limit <= t.Iend()
    requires t.mode == UsingExtDict && lowLimit == t.dictionary ==> m + (limit - ip) <= t.dictSize
    ensures Run(text, m + 4, t.At(ip) + 4, limit - ip - 4, c)
  {
    ghost var k := limit - ip - 4;
    MatchInText(t, text, match_, lowLimit, m, limit - ip);
    TextOfSource(t, text, ip + 4, k);
    c := CountStretch(t.mem, match_ + MINMATCH, ip + MINMATCH, limit - ip - MINMATCH, text, m + 4, t.At(ip) + 4);
  }

  /** `c` is how far the text repeats at `ip` what it has at `m`, short of the last
      five bytes. */
  ghost predicate LongestMatch(t: Task, text: seq<byte>, m: int, ip: int, c: nat) {
    && 0 <= m < t.At(ip) && ip <= t.Matchlimit()
    && Run(text, m, t.At(ip), t.Matchlimit() - ip, c)
  }

  /** Encode MatchLength, the count. */
  method MatchLength(t: Task, ip: nat, match_: int, lowLimit: int, ghost m: int, ghost text: seq<byte>)
    returns (matchCode: nat)
    requires t.Valid() && t.Reads(text) && t.Located(match_, lowLimit, m) && t.Repeats(text, m, ip, 4)
    requires ip + MFLIMIT <= t.Iend() && t.source <= ip
    ensures LongestMatch(t, text, m, ip, MINMATCH + matchCode)
  {
    if t.mode == UsingExtDict && lowLimit == t.dictionary {
      matchCode := DictionaryMatchLength(t, ip, match_, m, text);
    } else {
      matchCode := CountUpTo(t, ip, match_, lowLimit, t.Matchlimit(), m, text);
      SameJoin(text, m, text, t.At(ip), 4, matchCode);
    }
  }

  /** A match in the dictionary is counted in two steps. */
  method DictionaryMatchLength(t: Task, ip: nat, match_: int, ghost m: int, ghost text: seq<byte>)
    returns (matchCode: nat)
    requires t.Valid() && t.Reads(text) && t.mode == UsingExtDict
    requires t.Located(match_, t.dictionary, m) && t.Repeats(text, m, ip, 4)
    requires ip + MFLIMIT <= t.Iend() && t.source <= ip
    ensures LongestMatch(t, text, m, ip, MINMATCH + matchCode)
  {
    var limit := ip + (t.dictionary + t.dictSize - match_);
    if limit > t.Matchlimit() {
      limit := t.Matchlimit();
    }
    matchCode := CountUpTo(t, ip, match_, t.dictionary, limit, m, text);
    ghost var c := matchCode;
    var more := 0;
    if ip + MINMATCH + matchCode == limit {
      more := CountOn(t, limit, text);
      matchCode := matchCode + more;
    }
    InTwoSteps(t, text, m, ip, limit - ip, c, more);
  }

  lemma {:induction false} InTwoSteps(t: Task, text: seq<byte>, m: int, ip: nat, k: nat, c: nat, more: nat)
    requires |text| == t.dictSize + t.n && t.Repeats(text, m, ip, 4) && 4 <= k && ip + k <= t.Matchlimit()
    requires ip + k == t.Matchlimit() || m + k == t.dictSize
    requires Run(text, m + 4, t.At(ip) + 4, k - 4, c)
    requires if c == k - 4 then Run(text, t.dictSize, t.At(ip + k), t.Matchlimit() - (ip + k), more) else more == 0
    ensures LongestMatch(t, text, m, ip, 4 + c + more)
  {
    RunOfParts(text, m, t.At(ip), t.Matchlimit() - ip, k, c, more);
  }

  /** A match that was extended backwards reaches past where it was found. */
  lemma {:induction false} MatchReaches(t: Task, text: seq<byte>, m: int, ip: nat, k: nat, c: nat)
    requires t.Repeats(text, m, ip, k) && ip + k <= t.Matchlimit() && LongestMatch(t, text, m, ip, c)
    ensures t.Repeats(text, m, ip, c) && c >= k
  {
    RunIsLongest(text, m, t.At(ip), t.Matchlimit() - ip, c, k);
  }

  /** Takes the positions from `ip` to `filledIp` out of the table again. */
  method ClearPositions(t: Task, ip: nat, filledIp: nat)
    requires t.Valid() && t.directive == FillOutput && t.source < ip && filledIp + MFLIMIT <= t.Iend()
    requires ip <= filledIp && t.Entries(t.table[..], t.Index(filledIp + 1))
    modifies t.table
    ensures t.Entries(t.table[..], t.Index(ip))
  {
    var ptr := ip;
    while ptr <= filledIp
      invariant ip <= ptr <= filledIp + 1
      invariant t.Entries(t.table[..], t.Index(filledIp + 1))
      invariant forall k :: 0 <= k < HASH_TABLE_SLOTS ==>
                  t.table[k] < t.Index(ip) || t.table[k] >= t.Index(ptr)
    {
      var h := t.Key(ptr);
      assert forall k :: 0 <= k < HASH_TABLE_SLOTS ==> t.Entry(k, t.table[..][k], t.Index(filledIp + 1));
      t.table[h] := 0;
      ptr := ptr + 1;
    }
    assert forall k :: 0 <= k < HASH_TABLE_SLOTS ==> t.Entry(k, t.table[..][k], t.Index(filledIp + 1));
  }

  /** Fill table and test next position. */
  method TestNext(t: Task, ip: nat, ghost text: seq<byte>)
    returns (ok: bool, match_: int, lowLimit: int, offset: int, ghost m: int)
    requires t.Valid() && t.Reads(text) && t.source + 2 <= ip && ip + MFLIMIT <= t.Iend()
    requires t.Entries(t.table[..], t.Index(ip))
    modifies t.table
    ensures t.Entries(t.table[..], t.Index(ip + 1))
    ensures ok ==> t.Located(match_, lowLimit, m) && t.Repeats(text, m, ip, 4) && offset == t.At(ip) - m
  {
    var h := t.Key(ip - 2);
    PutPosition(t, ip - 2, h, t.Index(ip));
    h := t.Key(ip);
    ok, match_, lowLimit, offset, m := Probe(t, ip, h, text);
  }
}
