/** How every session between a client and a server ends. */
module SessionEnds {
  import opened Bytes
  import opened Codecs
  import opened CompressorState
  import opened Wire
  import L = Listing
  import Paths
  import opened Runs
  import opened Machines
  import opened Sessions
  import opened SessionRuns

  // ---------------------------------------------------------------------
  // The end of a session
  // ---------------------------------------------------------------------

  /** How a session ends: what client and server return, and what they have done. */
  datatype Outcome = Outcome(client: int, saved: Effect, server: int, stored: Effect)

  predicate EndsWith(f: Pair<State>, o: Outcome) {
    f.a == At(Done(o.client, o.saved)) && f.b == At(Done(o.server, o.stored))
  }

  /** Whatever the schedule, the session ends, without ever blocking, and it ends in `o`. */
  ghost predicate AlwaysEndsWith(c: Host, s: Host, o: Outcome)
    requires c.role.Client?
  {
    exists f :: EndsWith(f, o) && Inevitable(Session(c, s), Start(c), f)
  }

  lemma Ends(c: Host, s: Host, p: Pair<State>, f: Pair<State>, o: Outcome)
    requires c.role.Client? && EndsWith(f, o)
    requires Leads(Session(c, s), Start(c), p) && Leads(Session(c, s), p, f)
    ensures AlwaysEndsWith(c, s, o)
  {
    PartiesCommute(Party(c), Party(s));
    LeadsOn(Session(c, s), Start(c), p, f);
    LeadsToTheEnd(Session(c, s), Start(c), f);
  }

  /** The hosts keep to the limits of the protocol: block sizes of 32 bits, files whose
      byte values cannot add up to 2^63, listings whose length fits 64 bits. */
  ghost predicate Fit(c: Host, s: Host) {
    && c.role.Client? && s.role.Server? && Sound(c.codec) && Sound(s.codec)
    && c.role.blockSize < 0x1_0000_0000
    && (c.role.job.SendFile? ==> 255 * |c.role.job.file| < TWO63)
    && forall path :: path in s.role.disk.nodes ==> NodeFits(s.role.disk.nodes[path])
  }

  predicate NodeFits(node: Node) {
    match node
    case File(contents) => 255 * |contents| < TWO63
    case Directory(entries) => (forall e :: e in entries ==> e.size < TWO64) && |L.Listed(L.Visible(entries))| < TWO64
  }

  /** The path as it arrives is one the server works with. */
  predicate Usable(d: Disk, path: seq<byte>) {
    |path| < L.PATH_MAX && Paths.Accepted(path) && d.resolves(path)
  }

  /** A relative path that never goes up, and so leads down from any root. */
  ghost predicate Legal(path: seq<byte>) {
    && path != [] && path[0] != 0x2F && path[0] != 0x5C && Paths.UP !in Paths.Components(path, true)
    && Paths.StaysBelow(path)
  }

  /** A path the server works with, in terms of its bytes. */
  ghost predicate Reachable(d: Disk, path: seq<byte>) {
    |path| < 4096 && Legal(path) && d.resolves(path)
  }

  /** The format the flags ask for can carry the file. */
  predicate Carries(r: Role, file: seq<byte>)
    requires r.Client?
  {
    r.flags % 2 == 0 || file == [] || 1 <= r.blockSize <= 0x7E00_0000
  }

  lemma UsableIsReachable(d: Disk, path: seq<byte>)
    ensures Usable(d, path) <==> Reachable(d, path)
  {
    if Paths.Accepted(path) {
      Paths.AcceptedIsBelow(path);
    }
  }

  // ---------------------------------------------------------------------
  // Clients that get no answer
  // ---------------------------------------------------------------------

  predicate AwaitsAnswer(s: State) {
    s == AwaitResponse || s == AwaitResult || s == AwaitMade || s == AwaitConfirmation
  }

  lemma NoAnswer(c: Host, s: Host, waiting: State, r: int, e: Effect, ab: seq<byte>)
    requires AwaitsAnswer(waiting)
    ensures Leads(Session(c, s), Pair(At(waiting), At(Done(r, e)), ab, []),
                  Pair(At(Done(-1, Nothing)), At(Done(r, e)), ab, []))
  {
    Misses(Party(c), Party(s), Pair(At(waiting), At(Done(r, e)), ab, []), Act(c, waiting).n);
  }

  /** The sender of a file, when the peer has gone. */
  lemma SendsToNobody(x: Host, y: Host, format: Format, file: seq<byte>, r: int, e: Effect) returns (ab: seq<byte>)
    requires 255 * |file| < TWO63
    ensures Leads(Session(x, y), Pair(At(Transmit(format, file, 0)), At(Done(r, e)), [], []),
                  Pair(At(if Sendable(format, file) then AfterTransmit(x, Sum(file))
                          else if format == Compressed(0) then AfterTransmit(x, 0) else Done(-1, Nothing)),
                       At(Done(r, e)), ab, []))
  {
    FromZero(file);
    if Sendable(format, file) {
      var trailer := BigEndian(Sum(file), 8);
      ab := [] + (DataWire(x, format, file) + trailer);
      TransmitsAll(x, y, format, file, 0, Sum(file), trailer, At(Done(r, e)), [], [], ab);
    } else {
      ab := [] + if format == Compressed(0) then BigEndian(0, 8) else [];
      Sends(Party(x), Party(y), Transmit(format, file, 0), At(Done(r, e)), [], [],
            if format == Compressed(0) then BigEndian(0, 8) else []);
    }
  }

  lemma ClientSendsToNobody(c: Host, s: Host, format: Format, file: seq<byte>, r: int, e: Effect) returns (ab: seq<byte>)
    requires 255 * |file| < TWO63 && c.role.Client?
    ensures Leads(Session(c, s), Pair(At(Transmit(format, file, 0)), At(Done(r, e)), [], []),
                  Pair(At(Done(-1, Nothing)), At(Done(r, e)), ab, []))
  {
    ab := SendsToNobody(c, s, format, file, r, e);
    FromZero(file);
    if Sendable(format, file) || format == Compressed(0) {
      NoAnswer(c, s, AwaitResult, r, e, ab);
      LeadsOn(Session(c, s), Pair(At(Transmit(format, file, 0)), At(Done(r, e)), [], []),
              Pair(At(AwaitResult), At(Done(r, e)), ab, []), Pair(At(Done(-1, Nothing)), At(Done(r, e)), ab, []));
    }
  }

  // ---------------------------------------------------------------------
  // Sending a file
  // ---------------------------------------------------------------------

  /** How a client's request to send a file ends. */
  function SendOutcome(r: Role, d: Disk): Outcome
    requires r.Client? && r.job.SendFile?
  {
    var path, format := SentPath(r.path), FormatOf(r.flags, r.blockSize);
    if !Usable(d, path) then Outcome(-1, Nothing, -1, Nothing)
    else if MakeDirectory(r.flags) then
      if path in d.nodes || d.makes(path) then Outcome(-1, Nothing, 0, Made(path)) else Outcome(-1, Nothing, -1, Nothing)
    else if path in d.nodes && (d.nodes[path].Directory? || !Overwrite(r.flags)) then Outcome(-1, Nothing, -1, Nothing)
    else if !d.writable(path) then Outcome(-1, Nothing, -1, Nothing)
    else if Sendable(format, r.job.file) then Outcome(0, Nothing, 0, Wrote(path, r.job.file))
    else Outcome(-1, Nothing, -1, Wrote(path, []))
  }

  /** The file goes to a server that is ready for it. */
  lemma SendsToServer(c: Host, s: Host, path: seq<byte>) returns (f: Pair<State>)
    requires Fit(c, s) && c.role.job.SendFile?
    ensures var format, file := FormatOf(c.role.flags, c.role.blockSize), c.role.job.file;
            && Leads(Session(c, s), Pair(At(Transmit(format, file, 0)), At(ReadFile(format, |file|, 0, path, [])), [], []), f)
            && EndsWith(f, if Sendable(format, file) then Outcome(0, Nothing, 0, Wrote(path, file))
                           else Outcome(-1, Nothing, -1, Wrote(path, [])))
  {
    var m, format, file := Session(c, s), FormatOf(c.role.flags, c.role.blockSize), c.role.job.file;
    var p := Pair(At(Transmit(format, file, 0)), At(ReadFile(format, |file|, 0, path, [])), [], []);
    FromZero(file);
    if Sendable(format, file) {
      var later := Done(0, Wrote(path, file));
      FileMoves(c, s, format, file, path, []);
      TellsB(Party(c), Party(s), AwaitResult, Say(Response(RESULT_OK), later), [], Response(RESULT_OK));
      f := Pair(At(Done(0, Nothing)), At(later), [], []);
      LeadsOn(m, p, Pair(At(AwaitResult), At(Say(Response(RESULT_OK), later)), [], []), f);
    } else if format == Compressed(0) {
      var later, ab := Done(-1, Wrote(path, [])), BigEndian(0, 8)[4..];
      NothingRead(c, s, format, file, path, 0, []);
      TellsB(Party(c), Party(s), AwaitResult, Say(Response(OTHER_FAILURE), later), ab, Response(OTHER_FAILURE));
      f := Pair(At(Done(-1, Nothing)), At(later), ab, []);
      LeadsOn(m, p, Pair(At(AwaitResult), At(Say(Response(OTHER_FAILURE), later)), ab, []), f);
    } else {
      var later := Done(-1, Wrote(path, []));
      NothingCompressed(c, s, format, file, path, 0, []);
      SendsB(Party(c), Party(s), Say(Response(OTHER_FAILURE), later), At(Done(-1, Nothing)), [], [], Response(OTHER_FAILURE));
      f := Pair(At(Done(-1, Nothing)), At(later), [], [] + Response(OTHER_FAILURE));
      LeadsOn(m, p, Pair(At(Done(-1, Nothing)), At(Say(Response(OTHER_FAILURE), later)), [], []), f);
    }
  }

  /** From the server's answer on. */
  lemma AnswersSend(c: Host, s: Host, path: seq<byte>) returns (f: Pair<State>)
    requires Fit(c, s) && c.role.job.SendFile? && path == SentPath(c.role.path) && |path| < L.PATH_MAX
    ensures Leads(Session(c, s), Pair(At(AwaitResponse), At(HandleSend(s.role.disk, CommandOf(c.role), path)), [], []), f)
    ensures EndsWith(f, SendOutcome(c.role, s.role.disk))
  {
    var m, format, file := Session(c, s), FormatOf(c.role.flags, c.role.blockSize), c.role.job.file;
    var answer := HandleSend(s.role.disk, CommandOf(c.role), path);
    var p := Pair(At(AwaitResponse), At(answer), [], []);
    TellsB(Party(c), Party(s), AwaitResponse, answer, [], answer.msg);
    if answer.msg == Response(OTHER_FAILURE) {
      f := Pair(At(Done(-1, Nothing)), At(answer.later), [], []);
    } else {
      var q := Pair(At(Transmit(format, file, 0)), At(answer.later), [], []);
      if answer.later.Done? {
        var ab := ClientSendsToNobody(c, s, format, file, answer.later.ret, answer.later.effect);
        f := Pair(At(Done(-1, Nothing)), At(answer.later), ab, []);
      } else {
        f := SendsToServer(c, s, path);
      }
      LeadsOn(m, p, q, f);
    }
  }

  /** The server's files after what it has done. */
  function After(d: Disk, e: Effect): map<seq<byte>, Node> {
    match e
    case Wrote(path, contents) => d.nodes[path := File(contents)]
    case Made(path) => if path in d.nodes then d.nodes else d.nodes[path := Directory([])]
    case _ => d.nodes
  }

  lemma SendEnds(c: Host, s: Host)
    requires Fit(c, s) && c.role.job.SendFile?
    ensures AlwaysEndsWith(c, s, SendOutcome(c.role, s.role.disk))
  {
    var path := SentPath(c.role.path);
    Asks(c, s);
    if |path| < L.PATH_MAX {
      var f := AnswersSend(c, s, path);
      Ends(c, s, Pair(At(AwaitResponse), At(HandleSend(s.role.disk, CommandOf(c.role), path)), [], []), f,
           SendOutcome(c.role, s.role.disk));
    } else {
      NoAnswer(c, s, AwaitResponse, -1, Nothing, path);
      Ends(c, s, Pair(At(AwaitResponse), At(Done(-1, Nothing)), path, []),
           Pair(At(Done(-1, Nothing)), At(Done(-1, Nothing)), path, []), SendOutcome(c.role, s.role.disk));
    }
  }

  /** Every run of a send ends in the same way. The client returns 0 exactly if the path is
      usable and writable, is new or a file that may be overwritten, and the format can
      carry the file; and exactly if the server stored the file, unchanged, at the path
      that arrived. What exists is replaced only with the flag set, and only if a file;
      nothing is written but below the root. */
  lemma SendAlwaysEnds(c: Host, s: Host)
    requires Fit(c, s) && c.role.job.SendFile?
    ensures var o, r, d := SendOutcome(c.role, s.role.disk), c.role, s.role.disk;
            var path, file := SentPath(r.path), r.job.file;
            && AlwaysEndsWith(c, s, o)
            && (o.client == 0 <==>
                  && Reachable(d, path) && d.writable(path) && r.flags / 4 % 2 == 0 && Carries(r, file)
                  && (path in d.nodes ==> d.nodes[path].File? && r.flags / 2 % 2 == 1))
            && (o.client == 0 <==> o.server == 0 && o.stored == Wrote(path, file))
            && (o.client == 0 ==> After(d, o.stored) == d.nodes[path := File(file)])
            && (o.client != 0 && o.stored.Wrote? ==> o.stored.contents == [])
            && (path in d.nodes && (d.nodes[path].Directory? || r.flags / 2 % 2 == 0) ==>
                  !o.stored.Wrote? && After(d, o.stored) == d.nodes)
            && (o.stored != Nothing ==> (o.stored.Wrote? || o.stored.Made?) && o.stored.path == path && Legal(path))
            && (|r.path| < 0x1_0000 <==> path == r.path)
  {
    SendEnds(c, s);
    UsableIsReachable(s.role.disk, SentPath(c.role.path));
  }

  // ---------------------------------------------------------------------
  // Making a directory
  // ---------------------------------------------------------------------

  function MkdirOutcome(r: Role, d: Disk): Outcome
    requires r.Client?
  {
    var path := SentPath(r.path);
    if Usable(d, path) && (path in d.nodes || d.makes(path)) then Outcome(0, Nothing, 0, Made(path))
    else Outcome(-1, Nothing, -1, Nothing)
  }

  lemma AnswersMkdir(c: Host, s: Host, path: seq<byte>) returns (f: Pair<State>)
    requires Fit(c, s) && c.role.job.SendMkdir? && path == SentPath(c.role.path) && |path| < L.PATH_MAX
    ensures EndsWith(f, MkdirOutcome(c.role, s.role.disk))
    ensures Leads(Session(c, s), Pair(At(AwaitMade), At(HandleSend(s.role.disk, CommandOf(c.role), path)), [], []), f)
  {
    var answer := HandleSend(s.role.disk, CommandOf(c.role), path);
    f := Pair(At(Done(MkdirOutcome(c.role, s.role.disk).client, Nothing)), At(answer.later), [], []);
    TellsB(Party(c), Party(s), AwaitMade, answer, [], answer.msg);
  }

  lemma MkdirEnds(c: Host, s: Host)
    requires Fit(c, s) && c.role.job.SendMkdir?
    ensures AlwaysEndsWith(c, s, MkdirOutcome(c.role, s.role.disk))
  {
    var o, path := MkdirOutcome(c.role, s.role.disk), SentPath(c.role.path);
    Asks(c, s);
    if |path| < L.PATH_MAX {
      var f := AnswersMkdir(c, s, path);
      Ends(c, s, Pair(At(AwaitMade), At(HandleSend(s.role.disk, CommandOf(c.role), path)), [], []), f, o);
    } else {
      NoAnswer(c, s, AwaitMade, -1, Nothing, path);
      Ends(c, s, Pair(At(AwaitMade), At(Done(-1, Nothing)), path, []),
           Pair(At(Done(-1, Nothing)), At(Done(-1, Nothing)), path, []), o);
    }
  }

  /** Every run of a request for a directory ends in the same way. The client returns 0
      exactly if the path is usable, and something stands there or can be made: a
      directory then, or a file that was there. */
  lemma MkdirAlwaysEnds(c: Host, s: Host)
    requires Fit(c, s) && c.role.job.SendMkdir?
    ensures var o, d, path := MkdirOutcome(c.role, s.role.disk), s.role.disk, SentPath(c.role.path);
            && AlwaysEndsWith(c, s, o)
            && (o.client == 0 <==> Reachable(d, path) && (path in d.nodes || d.makes(path)))
            && (o.client == 0 ==> After(d, o.stored) == if path in d.nodes then d.nodes else d.nodes[path := Directory([])])
            && (o.client != 0 ==> After(d, o.stored) == d.nodes)
            && o.server == o.client
            && (o.stored != Nothing ==> o.stored == Made(path) && Legal(path))
  {
    MkdirEnds(c, s);
    UsableIsReachable(s.role.disk, SentPath(c.role.path));
  }

  // ---------------------------------------------------------------------
  // Receiving
  // ---------------------------------------------------------------------

  /** How a file is received that is there. */
  function FileOutcome(r: Role, d: Disk, path: seq<byte>, contents: seq<byte>): Outcome
    requires r.Client?
  {
    var format := FormatOf(r.flags, r.blockSize);
    var sent := d.readable(path) && (Sendable(format, contents) || format == Compressed(0));
    if sent && r.writable && Sendable(format, contents) then Outcome(0, Saved(contents), 0, Nothing)
    else Outcome(-1, if r.writable then Saved([]) else Nothing, if sent then 0 else -1, Nothing)
  }

  /** How a request to receive what is at a path ends. */
  function ReceiveOutcome(r: Role, d: Disk): Outcome
    requires r.Client?
  {
    var path := SentPath(r.path);
    if !Usable(d, path) then Outcome(-1, Nothing, -1, Nothing)
    else if path !in d.nodes then Outcome(-1, Nothing, 0, Nothing)
    else
      match d.nodes[path]
      case File(contents) => FileOutcome(r, d, path, contents)
      case Directory(entries) =>
        if d.readable(path) && r.job == Receive then Outcome(0, Shown(L.Visible(entries)), 0, Nothing)
        else Outcome(-1, Nothing, -1, Nothing)
  }

  /** A file comes from a server that can read it. */
  lemma ComesFromServer(c: Host, s: Host, contents: seq<byte>) returns (f: Pair<State>)
    requires Fit(c, s) && 255 * |contents| < TWO63
    ensures var format := FormatOf(c.role.flags, c.role.blockSize);
            && Leads(Session(c, s), Pair(At(ReadFile(format, |contents|, 0, [], [])), At(Transmit(format, contents, 0)), [], []), f)
            && EndsWith(f, if Sendable(format, contents) then Outcome(0, Saved(contents), 0, Nothing)
                           else Outcome(-1, Saved([]), if format == Compressed(0) then 0 else -1, Nothing))
  {
    var format := FormatOf(c.role.flags, c.role.blockSize);
    FromZero(contents);
    if Sendable(format, contents) {
      FileMoves(s, c, format, contents, [], []);
      f := Pair(At(Done(0, Saved(contents))), At(Done(0, Nothing)), [], []);
    } else if format == Compressed(0) {
      NothingRead(s, c, format, contents, [], 0, []);
      f := Pair(At(Done(-1, Saved([]))), At(Done(0, Nothing)), [], BigEndian(0, 8)[4..]);
    } else {
      NothingCompressed(s, c, format, contents, [], 0, []);
      f := Pair(At(Done(-1, Saved([]))), At(Done(-1, Nothing)), [], []);
    }
    Swapped(Party(c), Party(s), Pair(At(ReadFile(format, |contents|, 0, [], [])), At(Transmit(format, contents, 0)), [], []), f);
  }

  /** From the server's answer that a file is there. */
  lemma ReceivesFile(c: Host, s: Host, path: seq<byte>, contents: seq<byte>) returns (f: Pair<State>)
    requires Fit(c, s) && (c.role.job == Receive || c.role.job == Download) && 255 * |contents| < TWO63
    ensures var format := FormatOf(c.role.flags, c.role.blockSize);
            && Leads(Session(c, s), Pair(At(AfterConfirmation(c, TYPE_FILE, |contents|)), At(AwaitGo(path, File(contents), format)), [], []), f)
            && EndsWith(f, FileOutcome(c.role, s.role.disk, path, contents))
  {
    var m, format := Session(c, s), FormatOf(c.role.flags, c.role.blockSize);
    var go, asked := AfterConfirmation(c, TYPE_FILE, |contents|), AwaitGo(path, File(contents), format);
    var sender := AfterGo(s.role.disk, path, File(contents), format);
    Tells(Party(c), Party(s), go, asked, [], [GO]);
    if go.later.Done? && sender.Done? {
      f := Pair(At(go.later), At(sender), [], []);
      LeadsNowhere(m, f);
    } else if go.later.Done? {
      var ba := SendsToNobody(s, c, format, contents, -1, Nothing);
      FromZero(contents);
      f := Pair(At(Done(-1, Nothing)), At(Done(FileOutcome(c.role, s.role.disk, path, contents).server, Nothing)), [], ba);
      Swapped(Party(c), Party(s), Pair(At(Done(-1, Nothing)), At(sender), [], []), f);
    } else if sender.Done? {
      f := Pair(At(Done(-1, Saved([]))), At(sender), [], []);
      Misses(Party(c), Party(s), Pair(At(go.later), At(sender), [], []), Act(c, go.later).n);
    } else {
      f := ComesFromServer(c, s, contents);
    }
    LeadsOn(m, Pair(At(go), At(asked), [], []), Pair(At(go.later), At(sender), [], []), f);
  }

  /** What was announced is received, and the checksum behind it fits. */
  lemma ReadsListing(c: Host, s: Host, listing: seq<byte>, trailer: seq<byte>, over: Side<State>, shown: seq<L.Entry>)
    requires |trailer| == 8 && FromBigEndian(trailer) == Checksum(listing) && shown == L.Entries(listing, 0)
    ensures Leads(Session(c, s), Pair(At(ReadListing(|listing|)), over, [], listing + trailer),
                  Pair(At(Done(0, Shown(shown))), over, [], []))
  {
    Receives(Party(c), Party(s), ReadListing(|listing|), over, [], listing, trailer);
    assert trailer + [] == trailer;
    Receives(Party(c), Party(s), ReadListingSum(listing), over, [], trailer, []);
    LeadsOn(Session(c, s), Pair(At(ReadListing(|listing|)), over, [], listing + trailer),
            Pair(At(ReadListingSum(listing)), over, [], trailer), Pair(At(Done(0, Shown(shown))), over, [], []));
  }

  /** A listing comes, and is read as the directory it lists. */
  lemma ReceivesListing(c: Host, s: Host, entries: seq<L.Entry>) returns (f: Pair<State>)
    requires Fit(c, s) && NodeFits(Directory(entries))
    ensures var listing := L.Listed(L.Visible(entries));
            && Leads(Session(c, s), Pair(At(ReadListing(|listing|)), At(Say(listing + Trailer(listing), Done(0, Nothing))), [], []), f)
            && EndsWith(f, Outcome(0, Shown(L.Visible(entries)), 0, Nothing))
  {
    var visible := L.Visible(entries);
    var listing := L.Listed(visible);
    var wire, over := listing + Trailer(listing), At(Done(0, Nothing));
    var p := Pair(At(ReadListing(|listing|)), At(Say(wire, Done(0, Nothing))), [], []);
    Powers();
    BigEndianBack(Checksum(listing), 8);
    L.ListedBack(visible);
    assert [] + wire == wire;
    SendsB(Party(c), Party(s), p.b.state, p.a, [], [], wire);
    ReadsListing(c, s, listing, Trailer(listing), over, visible);
    f := Pair(At(Done(0, Shown(visible))), over, [], []);
    LeadsOn(Session(c, s), p, Pair(p.a, over, [], wire), f);
  }

  /** From the server's answer that a directory is there. */
  lemma ReceivesDirectory(c: Host, s: Host, path: seq<byte>, entries: seq<L.Entry>) returns (f: Pair<State>)
    requires Fit(c, s) && (c.role.job == Receive || c.role.job == Download) && NodeFits(Directory(entries))
    ensures var length := |L.Listed(L.Visible(entries))|;
            && Leads(Session(c, s), Pair(At(AfterConfirmation(c, TYPE_DIRECTORY, length)), At(AwaitGo(path, Directory(entries), Plain)), [], []), f)
            && EndsWith(f, if c.role.job == Receive then Outcome(0, Shown(L.Visible(entries)), 0, Nothing)
                           else Outcome(-1, Nothing, -1, Nothing))
  {
    var m, listing := Session(c, s), L.Listed(L.Visible(entries));
    var go, asked := AfterConfirmation(c, TYPE_DIRECTORY, |listing|), AwaitGo(path, Directory(entries), Plain);
    if c.role.job == Receive {
      Tells(Party(c), Party(s), go, asked, [], [GO]);
      f := ReceivesListing(c, s, entries);
      LeadsOn(m, Pair(At(go), At(asked), [], []),
              Pair(At(ReadListing(|listing|)), At(Say(listing + Trailer(listing), Done(0, Nothing))), [], []), f);
    } else {
      MissesB(Party(c), Party(s), asked, At(Done(-1, Nothing)), [], [], 1);
      f := Pair(At(Done(-1, Nothing)), At(Done(-1, Nothing)), [], []);
    }
  }

  lemma ConfirmationBack(kind: byte, length: nat)
    requires length < TWO64
    ensures var x := L.Confirmation(kind, length); x[0] == kind && FromBigEndian(x[1..]) == length
  {
    Powers();
    BigEndianBack(length, 8);
    assert L.Confirmation(kind, length)[1..] == BigEndian(length, 8);
  }

  /** The answer is told, and the client goes on from it. */
  lemma Confirms(c: Host, s: Host, kind: byte, length: nat, later: State)
    requires Fit(c, s) && length < TWO64
    ensures Leads(Session(c, s), Pair(At(AwaitConfirmation), At(Say(L.Confirmation(kind, length), later)), [], []),
                  Pair(At(AfterConfirmation(c, kind, length)), At(later), [], []))
  {
    ConfirmationBack(kind, length);
    TellsB(Party(c), Party(s), AwaitConfirmation, Say(L.Confirmation(kind, length), later), [], L.Confirmation(kind, length));
  }

  /** From the server's answer on. */
  lemma AnswersReceive(c: Host, s: Host, path: seq<byte>) returns (f: Pair<State>)
    requires Fit(c, s) && (c.role.job == Receive || c.role.job == Download)
    requires path == SentPath(c.role.path) && |path| < L.PATH_MAX
    ensures Leads(Session(c, s), Pair(At(AwaitConfirmation), At(HandleRecv(s.role.disk, CommandOf(c.role), path)), [], []), f)
    ensures EndsWith(f, ReceiveOutcome(c.role, s.role.disk))
  {
    var m, d := Session(c, s), s.role.disk;
    var answer := HandleRecv(d, CommandOf(c.role), path);
    var p := Pair(At(AwaitConfirmation), At(answer), [], []);
    if answer.Done? {
      NoAnswer(c, s, AwaitConfirmation, -1, Nothing, []);
      f := Pair(At(Done(-1, Nothing)), At(Done(-1, Nothing)), [], []);
    } else if !Paths.Accepted(path) || !d.resolves(path) {
      Confirms(c, s, OTHER_FAILURE, 0, answer.later);
      f := Pair(At(Done(-1, Nothing)), At(answer.later), [], []);
    } else if path !in d.nodes {
      Confirms(c, s, TYPE_NOT_FOUND, 0, answer.later);
      f := Pair(At(Done(-1, Nothing)), At(answer.later), [], []);
    } else if d.nodes[path].File? {
      var contents := d.nodes[path].contents;
      assert NodeFits(d.nodes[path]);
      Confirms(c, s, TYPE_FILE, |contents|, answer.later);
      f := ReceivesFile(c, s, path, contents);
      LeadsOn(m, p, Pair(At(AfterConfirmation(c, TYPE_FILE, |contents|)), At(answer.later), [], []), f);
    } else {
      var entries := d.nodes[path].entries;
      var length := |L.Listed(L.Visible(entries))|;
      assert NodeFits(d.nodes[path]);
      Confirms(c, s, TYPE_DIRECTORY, length, answer.later);
      f := ReceivesDirectory(c, s, path, entries);
      LeadsOn(m, p, Pair(At(AfterConfirmation(c, TYPE_DIRECTORY, length)), At(answer.later), [], []), f);
    }
  }

  lemma ReceiveEnds(c: Host, s: Host)
    requires Fit(c, s) && (c.role.job == Receive || c.role.job == Download)
    ensures AlwaysEndsWith(c, s, ReceiveOutcome(c.role, s.role.disk))
  {
    var o, path := ReceiveOutcome(c.role, s.role.disk), SentPath(c.role.path);
    Asks(c, s);
    if |path| < L.PATH_MAX {
      var f := AnswersReceive(c, s, path);
      Ends(c, s, Pair(At(AwaitConfirmation), At(HandleRecv(s.role.disk, CommandOf(c.role), path)), [], []), f, o);
    } else {
      NoAnswer(c, s, AwaitConfirmation, -1, Nothing, path);
      Ends(c, s, Pair(At(AwaitConfirmation), At(Done(-1, Nothing)), path, []),
           Pair(At(Done(-1, Nothing)), At(Done(-1, Nothing)), path, []), o);
    }
  }

  /** When what stands at a path can be received. */
  predicate Receivable(r: Role, d: Disk, path: seq<byte>)
    requires r.Client?
  {
    && path in d.nodes && d.readable(path)
    && match d.nodes[path]
       case File(contents) => r.writable && Carries(r, contents)
       case Directory(_) => r.job == Receive
  }

  /** Every run of a receive or a download ends in the same way. The client returns 0
      exactly if the path is usable and what stands there can be received; then it has
      saved the server's file unchanged, or shown all of the directory. */
  lemma ReceiveAlwaysEnds(c: Host, s: Host)
    requires Fit(c, s) && (c.role.job == Receive || c.role.job == Download)
    ensures var o, d, path := ReceiveOutcome(c.role, s.role.disk), s.role.disk, SentPath(c.role.path);
            && AlwaysEndsWith(c, s, o)
            && (o.client == 0 <==> Reachable(d, path) && Receivable(c.role, d, path))
            && (o.client == 0 && d.nodes[path].File? ==> o.server == 0 && o.saved == Saved(d.nodes[path].contents))
            && (o.client == 0 && d.nodes[path].Directory? ==>
                  o.server == 0 && o.saved.Shown? && L.Lists(d.nodes[path].entries, o.saved.entries))
            && (o.client != 0 ==> o.saved == Nothing || o.saved == Saved([]))
            && (!Reachable(d, path) ==> o == Outcome(-1, Nothing, -1, Nothing))
            && (Reachable(d, path) && path !in d.nodes ==> o == Outcome(-1, Nothing, 0, Nothing))
            && o.stored == Nothing
  {
    ReceiveEnds(c, s);
    var d, path := s.role.disk, SentPath(c.role.path);
    UsableIsReachable(d, path);
    if path in d.nodes && d.nodes[path].Directory? {
      L.VisibleLists(d.nodes[path].entries, L.Visible(d.nodes[path].entries));
    }
  }

  // ---------------------------------------------------------------------
  // In every state of every run
  // ---------------------------------------------------------------------

  predicate Overran(p: Pair<State>) {
    p.a.state == Overrun || p.b.state == Overrun
  }

  lemma OverrunStays(c: Host, s: Host, p: Pair<State>, q: Pair<State>)
    requires Overran(p) && OneMove(Session(c, s), p, q)
    ensures Overran(q)
  {
  }

  lemma {:induction false} OverrunNeverEnds(c: Host, s: Host, f: Pair<State>, o: Outcome, n: nat, run: seq<Pair<State>>)
    requires c.role.Client? && EndsWith(f, o) && AlwaysEnds(Session(c, s), Start(c), f, n)
    requires Trace(Session(c, s), run) && run[0] == Start(c) && Overran(run[|run| - 1])
    ensures false
    decreases n + 1 - |run|
  {
    var m, last := Session(c, s), run[|run| - 1];
    assert EndsAs(m, run, f, n);
    assert !Stuck(m, last);
    var q := if m.first(last).Some? then m.first(last).value else m.second(last).value;
    OverrunStays(c, s, last, q);
    RunOn(m, run, q);
    assert EndsAs(m, run + [q], f, n);
    OverrunNeverEnds(c, s, f, o, n, run + [q]);
  }

  /** Every session comes to an end, by any schedule. */
  lemma EverySessionEnds(c: Host, s: Host) returns (o: Outcome)
    requires Fit(c, s)
    ensures AlwaysEndsWith(c, s, o)
  {
    match c.role.job {
      case SendFile(_) =>
        SendEnds(c, s);
        o := SendOutcome(c.role, s.role.disk);
      case SendMkdir =>
        MkdirEnds(c, s);
        o := MkdirOutcome(c.role, s.role.disk);
      case _ =>
        ReceiveEnds(c, s);
        o := ReceiveOutcome(c.role, s.role.disk);
    }
  }

  lemma NoOverrunOnTheWay(c: Host, s: Host, o: Outcome, run: seq<Pair<State>>)
    requires c.role.Client? && AlwaysEndsWith(c, s, o) && Trace(Session(c, s), run) && run[0] == Start(c)
    ensures !Overran(run[|run| - 1])
  {
    var f: Pair<State> :| EndsWith(f, o) && Inevitable(Session(c, s), Start(c), f);
    var n: nat :| AlwaysEnds(Session(c, s), Start(c), f, n);
    if Overran(run[|run| - 1]) {
      OverrunNeverEnds(c, s, f, o, n, run);
    }
  }

  /** No run ever comes to a block that is longer than the buffer it is received in. */
  lemma NoBlockOverruns(c: Host, s: Host, run: seq<Pair<State>>)
    requires Fit(c, s) && Trace(Session(c, s), run) && run[0] == Start(c)
    ensures !Overran(run[|run| - 1])
  {
    var o := EverySessionEnds(c, s);
    NoOverrunOnTheWay(c, s, o, run);
  }
}
