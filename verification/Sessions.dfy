/** One request from a client to a server, each of them a machine that sends and receives. */
module Sessions {
  import opened Bytes
  import opened Codecs
  import opened CompressorState
  import opened CompressStream
  import opened Wire
  import T = Transfer
  import L = Listing
  import Paths
  import opened Runs
  import opened Machines

  // ---------------------------------------------------------------------
  // The parties
  // ---------------------------------------------------------------------

  const COMMAND_RECV: byte := 0
  const COMMAND_SEND: byte := 1
  const RESULT_OK: byte := 0
  const RESULT_CHECKSUM_BAD: byte := 1
  const OTHER_FAILURE: byte := 0xFF
  const CREATING: byte := 0
  const OVERWRITING: byte := 1
  const TYPE_FILE: byte := 0
  const TYPE_DIRECTORY: byte := 1
  const TYPE_NOT_FOUND: byte := 3
  const GO: byte := 1
  const UNABLE: byte := 0
  const CREATE_DIRECTORY: byte := 4
  const RESPONSE_SIZE := 255

  predicate UseCompression(flags: byte) {
    flags % 2 == 1
  }

  predicate Overwrite(flags: byte) {
    flags / 2 % 2 == 1
  }

  predicate MakeDirectory(flags: byte) {
    flags / 4 % 2 == 1
  }

  /** A 64-bit sum. */
  type Word = n: nat | n < TWO64

  function SumAfter(sum: Word, x: seq<byte>): Word {
    (sum + Sum(x)) % TWO64
  }

  datatype Format = Plain | Compressed(blockSize: nat)

  function FormatOf(flags: byte, blockSize: nat): Format {
    if UseCompression(flags) then Compressed(blockSize) else Plain
  }

  /** What stands at a path of the server. */
  datatype Node = File(contents: seq<byte>) | Directory(entries: seq<L.Entry>)

  /** The server's file system: what is where, and for which paths the path resolution,
      making a directory, opening for writing and opening for reading succeed. */
  datatype Disk = Disk(nodes: map<seq<byte>, Node>, resolves: seq<byte> -> bool, makes: seq<byte> -> bool,
                       writable: seq<byte> -> bool, readable: seq<byte> -> bool)

  /** The client functions: to send a file, to make a directory, to receive whatever is
      there, and to download a file. */
  datatype Job = SendFile(file: seq<byte>) | SendMkdir | Receive | Download

  datatype Role =
    | Client(job: Job, path: seq<byte>, flags: byte, blockSize: nat, writable: bool)
    | Server(disk: Disk)

  /** A party. `delivers` tells how many bytes a read delivers when so many are left. */
  datatype Host = Host(role: Role, codec: Codec, delivers: nat -> nat)

  /** What a party has done in the end. */
  datatype Effect =
    | Nothing
    | Saved(contents: seq<byte>)                     // the client's own file
    | Shown(entries: seq<L.Entry>)                   // the client's listing
    | Wrote(path: seq<byte>, contents: seq<byte>)    // a file of the server
    | Made(path: seq<byte>)                          // a directory of the server, unless the path existed

  datatype Command = Command(send: bool, flags: byte, blockSize: nat, length: nat)

  datatype State =
    | Say(msg: seq<byte>, later: State)
    // the client
    | AwaitResponse
    | AwaitResult
    | AwaitMade
    | AwaitConfirmation
    | ReadListing(length: nat)
    | ReadListingSum(listing: seq<byte>)
    // the server
    | AwaitCommand
    | AwaitHeader(send: bool)
    | AwaitPath(command: Command, length: nat)
    | AwaitGo(path: seq<byte>, node: Node, format: Format)
    // the sender and the receiver of a file
    | Transmit(format: Format, rest: seq<byte>, sum: Word)
    | ReadFile(format: Format, remaining: nat, sum: Word, path: seq<byte>, written: seq<byte>)
    | ReadBlock(format: Format, size: nat, remaining: nat, sum: Word, path: seq<byte>, written: seq<byte>)
    | Overrun                                        // a block longer than the buffer it is received in
    | Done(ret: int, effect: Effect)

  // ---------------------------------------------------------------------
  // Messages
  // ---------------------------------------------------------------------

  /** The path as it is sent: its length is a 16-bit number. */
  function SentPath(path: seq<byte>): seq<byte> {
    path[..|path| % 0x1_0000]
  }

  function SendHeader(flags: byte, pathLength: nat, blockSize: nat, length: nat): (s: seq<byte>)
    ensures |s| == 15
  {
    [flags] + BigEndian(pathLength, 2) + BigEndian(blockSize, 4) + BigEndian(length, 8)
  }

  function RecvHeader(flags: byte, pathLength: nat, blockSize: nat): (s: seq<byte>)
    ensures |s| == 7
  {
    [flags] + BigEndian(pathLength, 2) + BigEndian(blockSize, 4)
  }

  /** isr_response_t, without the message. */
  function Response(code: byte): (s: seq<byte>)
    ensures |s| == RESPONSE_SIZE && s[0] == code
  {
    [code] + seq(RESPONSE_SIZE - 1, _ => 0)
  }

  function SendCommand(path: seq<byte>, flags: byte, blockSize: nat, length: nat): seq<byte> {
    [COMMAND_SEND] + SendHeader(flags, |SentPath(path)|, blockSize, length) + SentPath(path)
  }

  function RecvCommand(path: seq<byte>, flags: byte, blockSize: nat): seq<byte> {
    [COMMAND_RECV] + RecvHeader(flags, |SentPath(path)|, blockSize) + SentPath(path)
  }

  // ---------------------------------------------------------------------
  // The machine
  // ---------------------------------------------------------------------

  /** The bytes of the next read. */
  function Piece(h: Host, format: Format, rest: seq<byte>): (r: seq<byte>)
    ensures r <= rest
    ensures rest != [] && format != Compressed(0) ==> 1 <= |r| <= (if format.Plain? then T.IO_BUFSIZE else format.blockSize)
    ensures rest == [] || format == Compressed(0) ==> r == []
  {
    var most := Min(|rest|, if format.Plain? then T.IO_BUFSIZE else format.blockSize);
    if 1 <= h.delivers(|rest|) <= most then rest[..h.delivers(|rest|)] else rest[..most]
  }

  /** A piece on the wire: nothing when the compressor refuses. */
  function Packed(h: Host, format: Format, piece: seq<byte>): seq<byte> {
    if format.Plain? then piece
    else if format.blockSize > MAX_INPUT_SIZE then []
    else Frame(h.codec.encode(piece))
  }

  function Act(h: Host, s: State): Action {
    match s
    case Say(msg, _) => Send(msg)
    case AwaitResponse => Recv(RESPONSE_SIZE)
    case AwaitResult => Recv(RESPONSE_SIZE)
    case AwaitMade => Recv(RESPONSE_SIZE)
    case AwaitConfirmation => Recv(9)
    case ReadListing(length) => Recv(length)
    case ReadListingSum(_) => Recv(8)
    case AwaitCommand => Recv(1)
    case AwaitHeader(send) => Recv(if send then 15 else 7)
    case AwaitPath(_, length) => Recv(length)
    case AwaitGo(_, _, _) => Recv(1)
    case Transmit(format, rest, sum) =>
      var piece := Piece(h, format, rest);
      Send(if piece == [] then BigEndian(sum, 8) else Packed(h, format, piece))
    case ReadFile(format, remaining, _, _, _) =>
      Recv(if remaining == 0 then 8 else if format.Plain? then Min(remaining, T.IO_BUFSIZE) else 4)
    case ReadBlock(_, size, _, _, _, _) => Recv(size)
    case Overrun => Stop
    case Done(_, _) => Stop
  }

  function AsInt32(r: int): int {
    var m := r % 0x1_0000_0000;
    if m < 0x8000_0000 then m else m - 0x1_0000_0000
  }

  /** The sender of a file has sent all of it, and `sum`. */
  function AfterTransmit(h: Host, sum: Word): State
  {
    match h.role
    case Client(_, _, _, _, _) => if AsInt64(sum) == -1 then Done(-1, Nothing) else AwaitResult
    case Server(_) => Done(if AsInt64(sum) >= 0 then 0 else -1, Nothing)
  }

  /** The receiver of a file has got `r`: a checksum, or an error code. */
  function AfterReadFile(h: Host, r: int, path: seq<byte>, written: seq<byte>): State {
    match h.role
    case Client(_, _, _, _, _) =>
      var code := if r >= 0 then 0 else AsInt32(r);
      Done(if code == -1 || code == -2 then -1 else 0, Saved(written))
    case Server(_) =>
      if r == -1 then Say(Response(OTHER_FAILURE), Done(-1, Wrote(path, written)))
      else if r == -2 then Say(Response(RESULT_CHECKSUM_BAD), Done(-1, Wrote(path, written)))
      else Say(Response(RESULT_OK), Done(0, Wrote(path, written)))
  }

  function AfterConfirmation(h: Host, kind: byte, length: nat): State
    requires h.role.Client?
  {
    var format := FormatOf(h.role.flags, h.role.blockSize);
    if kind == TYPE_DIRECTORY && h.role.job == Receive then Say([GO], ReadListing(length))
    else if kind == TYPE_FILE then
      Say([GO], if h.role.writable then ReadFile(format, length, 0, [], []) else Done(-1, Nothing))
    else Done(-1, Nothing)
  }

  /** isr_receive_send_command */
  function HandleSend(d: Disk, c: Command, path: seq<byte>): State {
    var refused := Say(Response(OTHER_FAILURE), Done(-1, Nothing));
    if !Paths.Accepted(path) || !d.resolves(path) then refused
    else if MakeDirectory(c.flags) then
      if path in d.nodes || d.makes(path) then Say(Response(RESULT_OK), Done(0, Made(path))) else refused
    else if path in d.nodes && (d.nodes[path].Directory? || !Overwrite(c.flags)) then refused
    else
      Say(Response(if path in d.nodes then OVERWRITING else CREATING),
          if d.writable(path) then ReadFile(FormatOf(c.flags, c.blockSize), c.length, 0, path, []) else Done(-1, Nothing))
  }

  /** isr_receive_recv_command */
  function HandleRecv(d: Disk, c: Command, path: seq<byte>): State {
    if !Paths.Accepted(path) || !d.resolves(path) then Say(L.Confirmation(OTHER_FAILURE, 0), Done(-1, Nothing))
    else if path !in d.nodes then Say(L.Confirmation(TYPE_NOT_FOUND, 0), Done(0, Nothing))
    else
      var node := d.nodes[path];
      match node
      case File(contents) =>
        Say(L.Confirmation(TYPE_FILE, |contents|), AwaitGo(path, node, FormatOf(c.flags, c.blockSize)))
      case Directory(entries) =>
        if !d.readable(path) then Done(-1, Nothing)
        else Say(L.Confirmation(TYPE_DIRECTORY, |L.Listed(L.Visible(entries))|), AwaitGo(path, node, Plain))
  }

  function AfterGo(d: Disk, path: seq<byte>, node: Node, format: Format): State {
    match node
    case File(contents) => if d.readable(path) then Transmit(format, contents, 0) else Done(-1, Nothing)
    case Directory(entries) =>
      var listing := L.Listed(L.Visible(entries));
      Say(listing + Trailer(listing), Done(0, Nothing))
  }

  function ParseHeader(send: bool, x: seq<byte>): (Command, nat)
    requires |x| == if send then 15 else 7
  {
    (Command(send, x[0], FromBigEndian(x[3..7]), if send then FromBigEndian(x[7..15]) else 0), FromBigEndian(x[1..3]))
  }

  /** The state after an action; `x` is what was received. */
  function Next(h: Host, s: State, x: seq<byte>): State {
    match s
    case Say(_, later) => later
    case AwaitResponse =>
      if x == [] || x[0] == OTHER_FAILURE || !h.role.Client? || !h.role.job.SendFile? then Done(-1, Nothing)
      else Transmit(FormatOf(h.role.flags, h.role.blockSize), h.role.job.file, 0)
    case AwaitResult => Done(if x != [] && x[0] == RESULT_OK then 0 else -1, Nothing)
    case AwaitMade => Done(if x != [] && x[0] == RESULT_OK then 0 else -1, Nothing)
    case AwaitConfirmation =>
      if x == [] || !h.role.Client? then Done(-1, Nothing)
      else AfterConfirmation(h, x[0], FromBigEndian(x[1..]))
    case ReadListing(_) => ReadListingSum(x)
    case ReadListingSum(listing) =>
      if FromBigEndian(x) == Checksum(listing) then Done(0, Shown(L.Entries(listing, 0))) else Done(-1, Nothing)
    case AwaitCommand =>
      if x == [COMMAND_SEND] then AwaitHeader(true) else if x == [COMMAND_RECV] then AwaitHeader(false) else Done(-1, Nothing)
    case AwaitHeader(send) =>
      if |x| != (if send then 15 else 7) then Done(-1, Nothing)
      else
        var (command, length) := ParseHeader(send, x);
        if length >= L.PATH_MAX then Done(-1, Nothing) else AwaitPath(command, length)
    case AwaitPath(command, _) =>
      if !h.role.Server? then Done(-1, Nothing)
      else if command.send then HandleSend(h.role.disk, command, x) else HandleRecv(h.role.disk, command, x)
    case AwaitGo(path, node, format) =>
      if !h.role.Server? then Done(-1, Nothing)
      else if x == [UNABLE] then Done(0, Nothing) else AfterGo(h.role.disk, path, node, format)
    case Transmit(format, rest, sum) =>
      var piece := Piece(h, format, rest);
      if piece == [] then AfterTransmit(h, sum)
      else if Packed(h, format, piece) == [] then Done(-1, Nothing)
      else Transmit(format, rest[|piece|..], SumAfter(sum, piece))
    case ReadFile(format, remaining, sum, path, written) =>
      if remaining == 0 then
        AfterReadFile(h, if FromBigEndian(x) == sum then AsInt64(sum) else -2, path, written)
      else if format.Plain? then
        ReadFile(format, (remaining - |x|) % TWO64, SumAfter(sum, x), path, written + x)
      else if FromBigEndian(x) > CompressBound(format.blockSize) then Overrun
      else ReadBlock(format, FromBigEndian(x), remaining, sum, path, written)
    case ReadBlock(format, size, remaining, sum, path, written) =>
      var y := if format.Plain? then [] else h.codec.decode(x, format.blockSize);
      if y == [] then AfterReadFile(h, -1, path, written)
      else ReadFile(format, (remaining - |y|) % TWO64, SumAfter(sum, y), path, written + y)
    case Overrun => Overrun
    case Done(_, _) => s
  }

  /** The state after a receive that ended early. */
  function Closed(h: Host, s: State): State {
    match s
    case ReadFile(_, _, _, path, written) => AfterReadFile(h, -1, path, written)
    case ReadBlock(_, _, _, _, path, written) => AfterReadFile(h, -1, path, written)
    case _ => Done(-1, Nothing)
  }

  function Party(h: Host): Machine<State> {
    Machine((s: State) => Act(h, s), (s: State, x: seq<byte>) => Next(h, s, x), (s: State) => Closed(h, s))
  }

  /** The first message of the client. */
  function Request(c: Host): State
    requires c.role.Client?
  {
    var r := c.role;
    match r.job
    case SendFile(file) => Say(SendCommand(r.path, r.flags, r.blockSize, |file|), AwaitResponse)
    case SendMkdir => Say(SendCommand(r.path, CREATE_DIRECTORY, 0, 0), AwaitMade)
    case Receive => Say(RecvCommand(r.path, r.flags, r.blockSize), AwaitConfirmation)
    case Download => Say(RecvCommand(r.path, r.flags, r.blockSize), AwaitConfirmation)
  }

  function Session(c: Host, s: Host): Moves<Pair<State>> {
    Both(Party(c), Party(s))
  }

  function Start(c: Host): Pair<State>
    requires c.role.Client?
  {
    Pair(At(Request(c)), At(AwaitCommand), [], [])
  }
}
