/** Directory listings: how a server announces and streams them, and the three loops
    that read them. */
module Listing {
  import opened Bytes
  import opened Transfer
  import opened Wire

  const HEADER := 11
  const PATH_MAX := 4096

  datatype Entry = Entry(isDirectory: byte, size: nat, name: seq<byte>)

  predicate Sendable(e: Entry) {
    e.size < TWO64 && |e.name| < 0x1_0000
  }

  predicate AllSendable(entries: seq<Entry>) {
    forall e :: e in entries ==> Sendable(e)
  }

  function Header(e: Entry): (s: seq<byte>)
    ensures |s| == HEADER
  {
    [e.isDirectory] + BigEndian(e.size, 8) + BigEndian(|e.name|, 2)
  }

  /** A listing on the wire. */
  function Listed(entries: seq<Entry>): seq<byte> {
    if entries == [] then [] else Header(entries[0]) + entries[0].name + Listed(entries[1..])
  }

  // ---------------------------------------------------------------------
  // Reading: what a buffer lists
  // ---------------------------------------------------------------------

  /** The length of the name whose header starts at `offset`. */
  function NameLength(buf: seq<byte>, offset: nat): nat
    requires offset + HEADER <= |buf|
  {
    FromBigEndian(buf[offset + 9..offset + HEADER])
  }

  predicate EntryAt(buf: seq<byte>, offset: nat) {
    offset + HEADER <= |buf| && offset + HEADER + NameLength(buf, offset) <= |buf|
  }

  function EntryOf(buf: seq<byte>, offset: nat): Entry
    requires EntryAt(buf, offset)
  {
    Entry(buf[offset], FromBigEndian(buf[offset + 1..offset + 9]), buf[offset + HEADER..NextOf(buf, offset)])
  }

  /** Where the entry at `offset` ends. */
  function NextOf(buf: seq<byte>, offset: nat): (next: nat)
    requires EntryAt(buf, offset)
    ensures offset < next <= |buf|
  {
    offset + HEADER + NameLength(buf, offset)
  }

  /** The complete entries from `offset` on. */
  function Entries(buf: seq<byte>, offset: nat): (r: seq<Entry>)
    decreases |buf| - offset
  {
    if !EntryAt(buf, offset) then [] else [EntryOf(buf, offset)] + Entries(buf, NextOf(buf, offset))
  }

  /** Where the last complete entry ends. */
  function End(buf: seq<byte>, offset: nat): (end: nat)
    requires offset <= |buf|
    ensures offset <= end <= |buf| && !EntryAt(buf, end)
    decreases |buf| - offset
  {
    if !EntryAt(buf, offset) then offset else End(buf, NextOf(buf, offset))
  }

  /** Where the filling pass stops: behind the last complete entry. */
  function FillStop(buf: seq<byte>): (stop: nat)
    ensures stop <= |buf|
  {
    End(buf, 0)
  }

  /** Where the counting pass and the printing loop stop: they also read a header that
      is not followed by its whole name. */
  function CountStop(buf: seq<byte>): (stop: nat)
    ensures FillStop(buf) <= stop <= |buf|
  {
    if End(buf, 0) + HEADER <= |buf| then End(buf, 0) + HEADER else End(buf, 0)
  }

  lemma FirstEntry(buf: seq<byte>, offset: nat, e: Entry, next: nat)
    requires EntryAt(buf, offset) && EntryOf(buf, offset) == e && NextOf(buf, offset) == next
    ensures Entries(buf, offset) == [e] + Entries(buf, next) && End(buf, offset) == End(buf, next)
  {
  }

  lemma OneFewer(buf: seq<byte>, offset: nat, next: nat)
    requires EntryAt(buf, offset) && NextOf(buf, offset) == next
    ensures |Entries(buf, offset)| == 1 + |Entries(buf, next)| && End(buf, offset) == End(buf, next)
  {
  }

  /** The counting pass: the number of entries, and where it stops. */
  method CountEntries(buf: seq<byte>) returns (count: nat, offset: nat)
    ensures count == |Entries(buf, 0)|
    ensures offset == CountStop(buf)
  {
    offset, count := 0, 0;
    ghost var all, stop, at := |Entries(buf, 0)|, End(buf, 0), 0;
    while offset < |buf|
      invariant at == offset <= |buf|
      invariant count + |Entries(buf, at)| == all && End(buf, at) == stop
      decreases |buf| - offset
    {
      if offset + HEADER > |buf| {
        break;
      }
      offset := offset + 1;
      offset := offset + 8;
      var nameLength := FromBigEndian(buf[offset..offset + 2]);
      offset := offset + 2;
      if offset + nameLength > |buf| {
        return;
      }
      offset := offset + nameLength;
      OneFewer(buf, at, offset);
      count := count + 1;
      at := offset;
    }
  }

  /** A header field by field; whether the whole name is behind it, and what then stands here. */
  method ReadHeader(buf: seq<byte>, start: nat)
    returns (kind: byte, size: nat, nameLength: nat, offset: nat, ghost e: Entry, ghost next: nat)
    requires start + HEADER <= |buf|
    ensures offset == start + HEADER && next == offset + nameLength && (next <= |buf| <==> EntryAt(buf, start))
    ensures next <= |buf| ==>
              && e == Entry(kind, size, buf[offset..next])
              && Entries(buf, start) == [e] + Entries(buf, next) && End(buf, start) == End(buf, next)
  {
    offset := start;
    kind := buf[offset];
    offset := offset + 1;
    size := FromBigEndian(buf[offset..offset + 8]);
    offset := offset + 8;
    nameLength := FromBigEndian(buf[offset..offset + 2]);
    offset := offset + 2;
    next := offset + nameLength;
    e := Entry(kind, size, if next <= |buf| then buf[offset..next] else []);
    if next <= |buf| {
      FirstEntry(buf, start, e, next);
    }
  }

  lemma OneMore<T>(done: seq<T>, e: T, rest: seq<T>)
    ensures done + ([e] + rest) == (done + [e]) + rest
  {
  }

  /** The filling pass: the entries themselves. It stops as soon as it has all of them. */
  method FillEntries(buf: seq<byte>, count: nat) returns (entries: array<Entry>, idx: nat, offset: nat)
    requires count == |Entries(buf, 0)|
    ensures fresh(entries) && idx == count == entries.Length && entries[..] == Entries(buf, 0)
    ensures offset == FillStop(buf)
  {
    entries := new Entry[count](_ => Entry(0, 0, []));
    offset, idx := 0, 0;
    ghost var all, stop, at := Entries(buf, 0), End(buf, 0), 0;
    ghost var rest := all;
    while offset < |buf| && idx < count
      invariant at == offset <= |buf| && idx <= count
      invariant rest == Entries(buf, at) && stop == End(buf, at)
      invariant all == entries[..idx] + rest && |all| == count
      decreases |buf| - offset
    {
      if offset + HEADER > |buf| {
        break;
      }
      var isDirectory, size, nameLength;
      ghost var e, next;
      isDirectory, size, nameLength, offset, e, next := ReadHeader(buf, offset);
      if offset + nameLength > |buf| {
        break;
      }
      ghost var done := entries[..idx];
      entries[idx] := Entry(isDirectory, size, buf[offset..offset + nameLength]);
      offset, at := offset + nameLength, next;
      rest := Entries(buf, next);
      OneMore(done, e, rest);
      idx := idx + 1;
      assert entries[..idx] == done + [e];
    }
    assert entries[..] == entries[..idx];
  }

  /** isr_cli_parse_directory_listing */
  method ParseDirectoryListing(buf: seq<byte>) returns (entries: array?<Entry>, entryCount: nat)
    ensures entryCount == |Entries(buf, 0)|
    ensures entries == null <==> entryCount == 0
    ensures entries != null ==> entries[..] == Entries(buf, 0)
  {
    var count, stop := CountEntries(buf);
    if count == 0 {
      return null, 0;
    }
    var offset;
    entries, entryCount, offset := FillEntries(buf, count);
  }

  /** A printed line: a directory, or a size, with as much of the name as fits. */
  datatype Line = Directory(name: seq<byte>) | Sized(size: nat, name: seq<byte>)

  function Shown(e: Entry): Line {
    var name := e.name[..Min(|e.name|, PATH_MAX - 1)];
    if e.isDirectory == 1 then Directory(name) else Sized(e.size, name)
  }

  /** A line tells a directory from a file, the size of a file, and the name, whole if it
      fits the buffer. */
  ghost predicate Tells(line: Line, e: Entry) {
    && (line.Directory? <==> e.isDirectory == 1) && (line.Sized? ==> line.size == e.size)
    && line.name == if |e.name| < 4096 then e.name else e.name[..4095]
  }

  /** One line for each entry, in order. */
  ghost predicate TellAll(lines: seq<Line>, entries: seq<Entry>) {
    |lines| == |entries| && forall i :: 0 <= i < |lines| ==> Tells(lines[i], entries[i])
  }

  lemma PrintedTells(entries: seq<Entry>)
    ensures TellAll(Printed(entries), entries)
  {
  }

  function Printed(entries: seq<Entry>): (lines: seq<Line>)
    ensures |lines| == |entries| && forall i :: 0 <= i < |lines| ==> lines[i] == Shown(entries[i])
  {
    seq(|entries|, i requires 0 <= i < |entries| => Shown(entries[i]))
  }

  lemma PrintedFirst(e: Entry, rest: seq<Entry>)
    ensures Printed([e] + rest) == [Shown(e)] + Printed(rest)
  {
  }

  /** A line, with a name that is cut to the size of its buffer. */
  method PrintEntry(buf: seq<byte>, offset: nat, kind: byte, size: nat, nameLength: nat, ghost e: Entry, ghost next: nat)
    returns (line: Line)
    requires next == offset + nameLength <= |buf| && e == Entry(kind, size, buf[offset..next])
    ensures line == Shown(e)
  {
    var copyLength := if nameLength < PATH_MAX - 1 then nameLength else PATH_MAX - 1;
    var name := buf[offset..offset + copyLength];
    SliceOfSlice(buf, offset, next, copyLength);
    line := if kind == 1 then Directory(name) else Sized(size, name);
  }

  /** The printing loop of isr_receive_directory_listing. */
  method PrintEntries(buf: seq<byte>) returns (lines: seq<Line>, offset: nat)
    ensures lines == Printed(Entries(buf, 0)) && TellAll(lines, Entries(buf, 0))
    ensures offset == CountStop(buf)
  {
    offset, lines := 0, [];
    ghost var all, stop, at := Entries(buf, 0), End(buf, 0), 0;
    ghost var rest := all;
    assert Printed(all) == lines + Printed(rest);
    while offset < |buf|
      invariant at == offset <= |buf|
      invariant rest == Entries(buf, at) && stop == End(buf, at)
      invariant Printed(all) == lines + Printed(rest)
      decreases |buf| - offset
    {
      if offset + HEADER > |buf| {
        break;
      }
      var kind, size, nameLength;
      ghost var e, next;
      kind, size, nameLength, offset, e, next := ReadHeader(buf, offset);
      if offset + nameLength > |buf| {
        break;
      }
      var line := PrintEntry(buf, offset, kind, size, nameLength, e, next);
      offset, at := offset + nameLength, next;
      rest := Entries(buf, next);
      PrintedFirst(e, rest);
      OneMore(lines, line, Printed(rest));
      lines := lines + [line];
    }
    assert rest == [];
    PrintedTells(all);
  }

  // ---------------------------------------------------------------------
  // Reading back what was written
  // ---------------------------------------------------------------------

  lemma HeaderAt(buf: seq<byte>, offset: nat, e: Entry, rest: seq<byte>, next: nat)
    requires offset <= |buf| && buf[offset..] == Header(e) + e.name + rest && Sendable(e)
    requires next == offset + HEADER + |e.name|
    ensures EntryAt(buf, offset) && EntryOf(buf, offset) == e && NextOf(buf, offset) == next && buf[next..] == rest
  {
    var s := buf[offset..];
    Powers();
    BigEndianBack(e.size, 8);
    BigEndianBack(|e.name|, 2);
    assert buf[offset] == s[0];
    assert buf[offset + 1..offset + 9] == s[1..9] == BigEndian(e.size, 8);
    assert buf[offset + 9..offset + HEADER] == s[9..HEADER] == BigEndian(|e.name|, 2);
    assert buf[offset + HEADER..next] == s[HEADER..HEADER + |e.name|] == e.name;
    assert buf[next..] == s[HEADER + |e.name|..] == rest;
  }

  lemma ListedFirst(entries: seq<Entry>, e: Entry, rest: seq<Entry>, tail: seq<byte>)
    requires entries != [] && entries[0] == e && entries[1..] == rest
    ensures Listed(entries) + tail == Header(e) + e.name + (Listed(rest) + tail)
    ensures entries == [e] + rest
  {
    Appended(Header(e) + e.name, Listed(rest), tail);
  }

  /** Reading the first entry of a listing leaves the listing of the others. */
  lemma ReadFirst(buf: seq<byte>, offset: nat, entries: seq<Entry>, tail: seq<byte>) returns (e: Entry, rest: seq<Entry>, next: nat)
    requires offset <= |buf| && buf[offset..] == Listed(entries) + tail && AllSendable(entries) && entries != []
    ensures entries == [e] + rest && AllSendable(rest)
    ensures offset < next <= |buf| && buf[next..] == Listed(rest) + tail
    ensures Entries(buf, offset) == [e] + Entries(buf, next) && End(buf, offset) == End(buf, next)
  {
    e, rest := entries[0], entries[1..];
    ListedFirst(entries, e, rest, tail);
    next := offset + HEADER + |e.name|;
    HeaderAt(buf, offset, e, Listed(rest) + tail, next);
    FirstEntry(buf, offset, e, next);
  }

  lemma NothingListed(buf: seq<byte>, offset: nat, entries: seq<Entry>, tail: seq<byte>)
    requires offset <= |buf| && buf[offset..] == Listed(entries) + tail && |tail| < HEADER && entries == []
    ensures Entries(buf, offset) == entries && End(buf, offset) == |buf| - |tail|
  {
  }

  /** Less than a header may follow. */
  lemma {:induction false} ListedBackFrom(buf: seq<byte>, offset: nat, entries: seq<Entry>, tail: seq<byte>)
    requires offset <= |buf| && buf[offset..] == Listed(entries) + tail && AllSendable(entries) && |tail| < HEADER
    ensures Entries(buf, offset) == entries && End(buf, offset) == |buf| - |tail|
    decreases |entries|
  {
    if entries == [] {
      NothingListed(buf, offset, entries, tail);
    } else {
      var e, rest, next := ReadFirst(buf, offset, entries, tail);
      ListedBackFrom(buf, next, rest, tail);
    }
  }

  /** Parsing a listing gives the entries that were listed, in order, and uses it up. */
  lemma ListedBack(entries: seq<Entry>)
    requires AllSendable(entries)
    ensures Entries(Listed(entries), 0) == entries && End(Listed(entries), 0) == |Listed(entries)|
  {
    assert Listed(entries)[0..] == Listed(entries) + [];
    ListedBackFrom(Listed(entries), 0, entries, []);
  }

  lemma HeaderBack(buf: seq<byte>, offset: nat, e: Entry, next: nat)
    requires EntryAt(buf, offset) && EntryOf(buf, offset) == e && NextOf(buf, offset) == next
    ensures Sendable(e) && buf[offset..next] == Header(e) + e.name
  {
    var kind, size, length := buf[offset], buf[offset + 1..offset + 9], buf[offset + 9..offset + HEADER];
    Powers();
    FromBigEndianBound(size);
    FromBigEndianBound(length);
    assert buf[offset..offset + HEADER] == [kind] + size + length;
  }

  /** What the passes read is the listing of the entries they find. */
  lemma {:induction false} EntriesListed(buf: seq<byte>, offset: nat)
    requires offset <= |buf|
    ensures AllSendable(Entries(buf, offset)) && buf[offset..End(buf, offset)] == Listed(Entries(buf, offset))
    decreases |buf| - offset
  {
    if EntryAt(buf, offset) {
      var e, next := EntryOf(buf, offset), NextOf(buf, offset);
      FirstEntry(buf, offset, e, next);
      HeaderBack(buf, offset, e, next);
      EntriesListed(buf, next);
      OneMorePiece(buf, offset, next, End(buf, offset));
      assert ([e] + Entries(buf, next))[1..] == Entries(buf, next);
    }
  }

  // ---------------------------------------------------------------------
  // Where the passes stop
  // ---------------------------------------------------------------------

  /** A listing, and less than a header behind it. */
  ghost predicate IsListing(buf: seq<byte>, entries: seq<Entry>, tail: seq<byte>) {
    AllSendable(entries) && buf == Listed(entries) + tail && |tail| < HEADER
  }

  /** The passes stop at the same place on a listing with less than a header behind it,
      and on nothing else. */
  lemma SameStop(buf: seq<byte>)
    ensures CountStop(buf) == FillStop(buf) <==> exists entries, tail :: IsListing(buf, entries, tail)
  {
    var end := End(buf, 0);
    if CountStop(buf) == FillStop(buf) {
      EntriesListed(buf, 0);
      assert buf == buf[0..end] + buf[end..];
      assert IsListing(buf, Entries(buf, 0), buf[end..]);
    }
    forall entries, tail | IsListing(buf, entries, tail) ensures CountStop(buf) == FillStop(buf) {
      assert buf[0..] == buf;
      ListedBackFrom(buf, 0, entries, tail);
    }
  }

  /** On one entry followed by a header whose name is missing, they do not. */
  lemma StopsApart()
    ensures var buf := Header(Entry(0, 0, [])) + Header(Entry(0, 0, [0]));
            |Entries(buf, 0)| == 1 && FillStop(buf) == HEADER && CountStop(buf) == 2 * HEADER
  {
    var first, second := Entry(0, 0, []), Entry(0, 0, [0]);
    var buf := Header(first) + Header(second);
    assert buf[0..] == Header(first) + first.name + Header(second);
    HeaderAt(buf, 0, first, Header(second), HEADER);
    FirstEntry(buf, 0, first, HEADER);
    Powers();
    BigEndianBack(1, 2);
    assert buf[HEADER + 9..2 * HEADER] == BigEndian(1, 2);
    assert !EntryAt(buf, HEADER);
  }

  lemma ListedOne(e: Entry, one: seq<Entry>)
    requires one == [e]
    ensures Listed(one) == Header(e) + e.name
  {
    assert one[1..] == [];
  }

  lemma {:induction false} ListedMore(entries: seq<Entry>, e: Entry)
    ensures Listed(entries + [e]) == Listed(entries) + (Header(e) + e.name)
    decreases |entries|
  {
    var more := entries + [e];
    if entries == [] {
      ListedOne(e, more);
    } else {
      var first, rest := Header(entries[0]) + entries[0].name, entries[1..];
      assert more[0] == entries[0] && more[1..] == rest + [e];
      ListedMore(rest, e);
      Appended(first, Listed(rest), Header(e) + e.name);
    }
  }

  // ---------------------------------------------------------------------
  // The server
  // ---------------------------------------------------------------------

  const NAME_SIZE := 256

  predicate Dots(name: seq<byte>) {
    name == [0x2E] || name == [0x2E, 0x2E]
  }

  function Cut(e: Entry): Entry {
    e.(name := e.name[..Min(|e.name|, NAME_SIZE - 1)])
  }

  /** What readdir and stat tell, without "." and "..", names cut to the buffer. */
  function Visible(dir: seq<Entry>): (r: seq<Entry>)
    ensures |r| <= |dir|
    ensures (forall e :: e in dir ==> e.size < TWO64) ==> AllSendable(r)
    decreases |dir|
  {
    if dir == [] then []
    else
      var e := dir[|dir| - 1];
      var before := Visible(dir[..|dir| - 1]);
      if Dots(e.name) then before else before + [Cut(e)]
  }

  /** `entries` are, in order, those of `dir` at `at`: all whose name is neither "." nor
      "..", each with its kind, its size and the first 255 bytes of its name. */
  ghost predicate Picks(dir: seq<Entry>, entries: seq<Entry>, at: seq<nat>) {
    && |at| == |entries|
    && (forall k :: 0 <= k < |at| ==> at[k] < |dir| && Picked(dir[at[k]], entries[k]))
    && (forall k, l :: 0 <= k < l < |at| ==> at[k] < at[l])
    && (forall i :: 0 <= i < |dir| && dir[i].name != [0x2E] && dir[i].name != [0x2E, 0x2E] ==> i in at)
  }

  ghost predicate Picked(e: Entry, r: Entry) {
    && e.name != [0x2E] && e.name != [0x2E, 0x2E]
    && r.isDirectory == e.isDirectory && r.size == e.size
    && r.name == if |e.name| <= 255 then e.name else e.name[..255]
  }

  ghost predicate Lists(dir: seq<Entry>, entries: seq<Entry>) {
    exists at :: Picks(dir, entries, at)
  }

  lemma {:induction false} VisiblePicks(dir: seq<Entry>) returns (at: seq<nat>)
    ensures Picks(dir, Visible(dir), at)
    decreases |dir|
  {
    at := [];
    if dir != [] {
      var k := |dir| - 1;
      at := VisiblePicks(dir[..k]);
      if Dots(dir[k].name) {
        PicksNoMore(dir[..k], dir, Visible(dir[..k]), at);
      } else {
        PicksMore(dir[..k], dir, Visible(dir[..k]), at);
        at := at + [k];
      }
    }
  }

  lemma PicksNoMore(init: seq<Entry>, dir: seq<Entry>, entries: seq<Entry>, at: seq<nat>)
    requires Picks(init, entries, at) && |dir| == |init| + 1 && dir[..|init|] == init && Dots(dir[|init|].name)
    ensures Picks(dir, entries, at)
  {
    assert forall i :: 0 <= i < |init| ==> dir[i] == init[i];
  }

  lemma PicksMore(init: seq<Entry>, dir: seq<Entry>, entries: seq<Entry>, at: seq<nat>)
    requires Picks(init, entries, at) && |dir| == |init| + 1 && dir[..|init|] == init && !Dots(dir[|init|].name)
    ensures Picks(dir, entries + [Cut(dir[|init|])], at + [|init|])
  {
    var at2 := at + [|init|];
    assert forall i :: 0 <= i < |init| ==> dir[i] == init[i];
    assert at2[|at|] == |init|;
    assert forall i :: i in at ==> i in at2;
  }

  /** What is visible is the directory, without the two names. */
  lemma VisibleLists(dir: seq<Entry>, entries: seq<Entry>)
    requires entries == Visible(dir)
    ensures Lists(dir, entries)
  {
    var at := VisiblePicks(dir);
  }

  lemma VisibleMore(dir: seq<Entry>, i: nat, seen: seq<Entry>) returns (more: seq<Entry>)
    requires i < |dir| && seen == Visible(dir[..i])
    ensures more == Visible(dir[..i + 1]) == if Dots(dir[i].name) then seen else seen + [Cut(dir[i])]
    ensures !Dots(dir[i].name) ==> |Listed(more)| == |Listed(seen)| + 1 + 8 + 2 + |Cut(dir[i]).name|
  {
    assert dir[..i + 1][..i] == dir[..i];
    more := Visible(dir[..i + 1]);
    ListedMore(seen, Cut(dir[i]));
  }

  /** Collects the entries in an array that doubles when it is full. */
  method CollectEntries(dir: seq<Entry>) returns (entries: array<Entry>, count: nat, totalSize: nat)
    ensures fresh(entries) && count <= entries.Length && entries[..count] == Visible(dir)
    ensures Lists(dir, entries[..count]) && totalSize == |Listed(entries[..count])|
  {
    var capacity := 256;
    entries := new Entry[capacity](_ => Entry(0, 0, []));
    count, totalSize := 0, 0;
    var i := 0;
    ghost var seen: seq<Entry> := [];
    while i < |dir|
      invariant 0 <= i <= |dir| && 0 < capacity == entries.Length && count <= capacity && fresh(entries)
      invariant seen == Visible(dir[..i]) && entries[..count] == seen && totalSize == |Listed(seen)|
    {
      ghost var before := seen;
      seen := VisibleMore(dir, i, before);
      var e := dir[i];
      i := i + 1;
      if Dots(e.name) {
        continue;
      }
      if count >= capacity {
        entries := Doubled(entries);
        capacity := capacity * 2;
      }
      assert entries[..count] == before;
      entries[count] := Cut(e);
      totalSize := totalSize + 1 + 8 + 2 + |entries[count].name|;
      count := count + 1;
      assert entries[..count] == before + [Cut(e)];
    }
    assert dir[..i] == dir;
    VisibleLists(dir, entries[..count]);
  }

  method Doubled(a: array<Entry>) returns (b: array<Entry>)
    ensures fresh(b) && b.Length == 2 * a.Length && b[..a.Length] == a[..]
  {
    b := new Entry[2 * a.Length](i reads a => if 0 <= i < a.Length then a[i] else Entry(0, 0, []));
  }

  /** A header and a name, in the checksum and on the wire. */
  method SendEntry(sock: Socket, e: Entry, checksum: nat, ghost before: seq<byte>) returns (ok: bool, c: nat)
    requires checksum == Checksum(before)
    modifies sock`outbox
    ensures c == Checksum(before + (Header(e) + e.name))
    ensures ok ==> sock.outbox == old(sock.outbox) + (Header(e) + e.name)
    ensures sock.reliable ==> ok
  {
    var header := Header(e);
    var n := CountByteValues(header, HEADER);
    assert header[..HEADER] == header && e.name[..|e.name|] == e.name;
    ChecksumOfBoth(before, header);
    c := (checksum + n) % TWO64;
    n := CountByteValues(e.name, |e.name|);
    ChecksumOfBoth(before + header, e.name);
    c := (c + n) % TWO64;
    Appended(before, header, e.name);
    ok := sock.SendExact(header, HEADER);
    if ok && |e.name| > 0 {
      Appended(old(sock.outbox), header, e.name);
      ok := sock.SendExact(e.name, |e.name|);
    }
  }

  /** The entries one by one, then the checksum over all of them. */
  method StreamEntries(sock: Socket, entries: array<Entry>, count: nat) returns (ok: bool)
    requires count <= entries.Length
    modifies sock`outbox
    ensures ok ==> sock.outbox == old(sock.outbox) + Listed(entries[..count]) + Trailer(Listed(entries[..count]))
    ensures sock.reliable ==> ok
  {
    ghost var out := sock.outbox;
    var checksum := 0;
    var i := 0;
    while i < count
      invariant 0 <= i <= count
      invariant sock.outbox == out + Listed(entries[..i]) && checksum == Checksum(Listed(entries[..i]))
    {
      ghost var before := Listed(entries[..i]);
      ok, checksum := SendEntry(sock, entries[i], checksum, before);
      if !ok {
        return;
      }
      ListedMore(entries[..i], entries[i]);
      assert entries[..i] + [entries[i]] == entries[..i + 1];
      Appended(out, before, Header(entries[i]) + entries[i].name);
      i := i + 1;
    }
    ok := SendChecksum(sock, checksum);
  }

  const RECV_TYPE_DIRECTORY: byte := 1
  const RECV_UNABLE: byte := 0

  function Confirmation(kind: byte, length: nat): (s: seq<byte>)
    ensures |s| == 9
  {
    [kind] + BigEndian(length, 8)
  }

  /** The size of the listing, the client's answer, and the listing itself. */
  method Announce(sock: Socket, entries: array<Entry>, count: nat, totalSize: nat) returns (r: int)
    requires count <= entries.Length && totalSize == |Listed(entries[..count])|
    modifies sock`inbox, sock`outbox
    ensures var listing := Listed(entries[..count]);
            var wire := old(sock.outbox) + Confirmation(RECV_TYPE_DIRECTORY, |listing|);
            && (r == 0 || r == -1)
            && (r == 0 ==> |old(sock.inbox)| > 0 && sock.inbox == old(sock.inbox)[1..])
            && (r == 0 && old(sock.inbox)[0] == RECV_UNABLE ==> sock.outbox == wire)
            && (r == 0 && old(sock.inbox)[0] != RECV_UNABLE ==> sock.outbox == wire + listing + Trailer(listing))
    ensures sock.reliable && |old(sock.inbox)| > 0 ==> r == 0
  {
    var confirmation := Confirmation(RECV_TYPE_DIRECTORY, totalSize);
    var ok := sock.SendExact(confirmation, 9);
    if !ok {
      return -1;
    }
    assert confirmation[..9] == confirmation;
    var go := new byte[1];
    ok := sock.RecvExact(go, 1);
    if !ok {
      return -1;
    }
    assert go[0] == go[..1][0];
    if go[0] == RECV_UNABLE {
      return 0;
    }
    ok := StreamEntries(sock, entries, count);
    r := if ok then 0 else -1;
  }

  /** isr_transmit_recv_directory_listing: what is announced is what is sent, and that is
      the directory. */
  method TransmitDirectoryListing(sock: Socket, dir: seq<Entry>) returns (r: int, ghost sent: seq<Entry>)
    modifies sock`inbox, sock`outbox
    ensures sent == Visible(dir) && Lists(dir, sent)
    ensures var listing := Listed(sent);
            var wire := old(sock.outbox) + Confirmation(RECV_TYPE_DIRECTORY, |listing|);
            && (r == 0 || r == -1)
            && (r == 0 ==> |old(sock.inbox)| > 0 && sock.inbox == old(sock.inbox)[1..])
            && (r == 0 && old(sock.inbox)[0] == RECV_UNABLE ==> sock.outbox == wire)
            && (r == 0 && old(sock.inbox)[0] != RECV_UNABLE ==> sock.outbox == wire + listing + Trailer(listing))
    ensures sock.reliable && |old(sock.inbox)| > 0 ==> r == 0
  {
    var entries, count, totalSize := CollectEntries(dir);
    sent := entries[..count];
    r := Announce(sock, entries, count, totalSize);
  }

  // ---------------------------------------------------------------------
  // The client
  // ---------------------------------------------------------------------

  /** recv_verified_listing, and the same part of isr_receive_directory_listing. */
  method RecvVerifiedListing(sock: Socket, effectiveLength: nat) returns (buf: Option<seq<byte>>)
    modifies sock`inbox
    ensures var n, s := effectiveLength, old(sock.inbox);
            && (buf.Some? ==> |s| >= n + 8 && buf.value == s[..n] && FromBigEndian(s[n..n + 8]) == Checksum(s[..n]))
            && (sock.reliable && |s| >= n + 8 && FromBigEndian(s[n..n + 8]) == Checksum(s[..n]) ==>
                  buf.Some? && sock.inbox == s[n + 8..])
  {
    ghost var s := sock.inbox;
    var n := effectiveLength;
    var data := new byte[n];
    var ok := sock.RecvExact(data, n);
    if !ok {
      return None;
    }
    assert data[..n] == data[..];
    var checksum := CountByteValues(data[..], n);
    if |s| >= n + 8 {
      Behind(s, n);
    }
    var be := new byte[8];
    ok := sock.RecvExact(be, 8);
    if !ok {
      return None;
    }
    assert be[..8] == be[..];
    if FromBigEndian(be[..]) != checksum {
      return None;
    }
    buf := Some(data[..]);
  }

  /** The client's half: the listing is received, parsed and printed. */
  method FetchListing(client: Socket, ghost sent: seq<Entry>) returns (entries: Option<seq<Entry>>, lines: seq<Line>)
    requires AllSendable(sent) && |Listed(sent)| < TWO64
    requires client.inbox == [] + Confirmation(RECV_TYPE_DIRECTORY, |Listed(sent)|) + Listed(sent) + Trailer(Listed(sent))
    modifies client`inbox
    ensures client.reliable ==> entries.Some?
    ensures entries.Some? ==> entries.value == sent && TellAll(lines, sent)
  {
    ghost var listing := Listed(sent);
    var confirmation := new byte[9];
    var ok := client.RecvExact(confirmation, 9);
    if !ok {
      return None, [];
    }
    Arrived(listing);
    assert confirmation[1..] == confirmation[..9][1..9];
    var buf := RecvVerifiedListing(client, FromBigEndian(confirmation[1..]));
    if buf.None? {
      return None, [];
    }
    ListedBack(sent);
    var parsed, count := ParseDirectoryListing(buf.value);
    var offset;
    lines, offset := PrintEntries(buf.value);
    entries := Some(if parsed == null then [] else parsed[..]);
  }

  /** A whole listing: the client sees the directory as it is. */
  method ListDirectory(dir: seq<Entry>, go: byte, reliable: bool) returns (entries: Option<seq<Entry>>, lines: seq<Line>)
    requires forall e :: e in dir ==> e.size < TWO64
    requires go != RECV_UNABLE && |Listed(Visible(dir))| < TWO64
    ensures reliable ==> entries.Some?
    ensures entries.Some? ==> Lists(dir, entries.value) && TellAll(lines, entries.value)
  {
    var server := new Socket([go], reliable);
    var r;
    ghost var sent;
    r, sent := TransmitDirectoryListing(server, dir);
    if r < 0 {
      return None, [];
    }
    var client := new Socket(server.outbox, reliable);
    entries, lines := FetchListing(client, sent);
  }

  lemma Arrived(listing: seq<byte>)
    requires |listing| < TWO64
    ensures var wire := [] + Confirmation(RECV_TYPE_DIRECTORY, |listing|) + listing + Trailer(listing);
            && |wire| >= 9 && FromBigEndian(wire[..9][1..9]) == |listing|
            && |wire[9..]| == |listing| + 8 && wire[9..][..|listing|] == listing
            && FromBigEndian(wire[9..][|listing|..|listing| + 8]) == Checksum(listing)
  {
    var head, behind := Confirmation(RECV_TYPE_DIRECTORY, |listing|), listing + Trailer(listing);
    LengthBack(|listing|);
    TrailerBack(listing);
    assert [] + head + listing + Trailer(listing) == head + behind;
    assert (head + behind)[..9] == head && (head + behind)[9..] == behind;
  }

  lemma LengthBack(length: nat)
    requires length < TWO64
    ensures FromBigEndian(Confirmation(RECV_TYPE_DIRECTORY, length)[1..9]) == length
  {
    Powers();
    BigEndianBack(length, 8);
    assert Confirmation(RECV_TYPE_DIRECTORY, length)[1..9] == BigEndian(length, 8);
  }

  lemma TrailerBack(listing: seq<byte>)
    ensures var s := listing + Trailer(listing);
            && s[..|listing|] == listing && FromBigEndian(s[|listing|..|listing| + 8]) == Checksum(listing)
  {
    Powers();
    BigEndianBack(Checksum(listing), 8);
    assert (listing + Trailer(listing))[|listing|..|listing| + 8] == Trailer(listing);
  }
}
