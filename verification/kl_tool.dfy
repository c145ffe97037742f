/** kl_tool, the command-line client of the kl_tcp remote-command service:
    the launch decision of `main`, the argument checks of ConnectServer, the
    command request, the stdin forwarding loop with its time budget, and the
    handling of each packet the server sends back.

    The socket, the clock, stdin and stdout are inputs. A call to `exit` is a
    `Stop` reaction carrying the exit code and the packets sent before it; a
    packet stands for the frame FrameOf(conn, InitCommHead(cmdtype, innseq), body),
    which is what ReplyCommAnswer and the chunk sender put on the wire. */
module KlTool {
  import opened Wrappers
  import opened Bytes
  import opened Buffers
  import opened Protocol
  import opened Murmur
  import opened TcpComm
  import opened Framing

  // ---------------------------------------------------------------------------
  // Options and launch

  const DEFAULT_CMD_TIMEOUT: uint64 := 86400000
  const DEFAULT_RD_TIMEOUT: int := 5000

  /** The parsed command line; an option not given holds its default, and a
      missing `--host` or `--command` is the empty string. */
  datatype Options = Options(help: bool, host: string, timeout: uint64, file: int, daemon: int,
                             noChecksum: int, killChild: int, rdTimeout: int, command: seq<byte>)

  /** The command line with only `--host` and `--command` given. */
  function Given(host: string, command: seq<byte>): Options {
    Options(false, host, DEFAULT_CMD_TIMEOUT, 0, 0, 0, 0, DEFAULT_RD_TIMEOUT, command)
  }

  /** The kl_type word main assembles from the four switches, one bit each. */
  function KlTypeOf(o: Options): (t: int)
    ensures 0 <= t < 0x20
    ensures HasFlag(t, KL_FILE_TRANSMIT) <==> o.file != 0
    ensures HasFlag(t, KL_DAEMON) <==> o.daemon != 0
    ensures HasFlag(t, KL_NCHECKSUM) <==> o.noChecksum != 0
    ensures HasFlag(t, KL_TIMEOUTKILLCHILD) <==> o.killChild != 0
    ensures !HasFlag(t, KL_FILE_COVER)
  {
    var f := if o.file != 0 then 1 else 0;
    var d := if o.daemon != 0 then 1 else 0;
    var n := if o.noChecksum != 0 then 1 else 0;
    var k := if o.killChild != 0 then 1 else 0;
    FlagBits(f, d, n, k);
    f * KL_FILE_TRANSMIT + d * KL_DAEMON + n * KL_NCHECKSUM + k * KL_TIMEOUTKILLCHILD
  }

  lemma FlagBits(f: nat, d: nat, n: nat, k: nat)
    requires f < 2 && d < 2 && n < 2 && k < 2
    ensures var t := f + 4 * d + 8 * n + 16 * k;
      t % TWO_32 == t && t / 1 % 2 == f && t / 2 % 2 == 0 && t / 4 % 2 == d
      && t / 8 % 2 == n && t / 16 % 2 == k
  {
  }

  /** What `main` does before the event loop starts: exit at once with a
      code, or connect to `ip`:`port` and run `command`. */
  datatype Launch =
    | Exit(code: int)
    | Start(ip: string, port: int, rdTimeout: int, timeout: uint64, command: seq<byte>, klType: int)

  /** main's option handling: help wins, then a missing host or command, then
      the unsupported file transmission; otherwise the host is split at its
      last ':' and the port read with atoi. */
  function Main(o: Options): (r: Launch)
    ensures r.Exit? ==> r.code == (if o.help then 0 else -1)
    ensures r.Start? <==> !o.help && o.host != "" && o.command != [] && o.file == 0
    ensures r.Start? ==> r.command == o.command && r.timeout == o.timeout && r.rdTimeout == o.rdTimeout
    ensures r.Start? ==> r.klType == KlTypeOf(o) && !HasFlag(r.klType, KL_FILE_TRANSMIT)
  {
    if o.help then Exit(0)
    else if o.host == "" || o.command == [] then Exit(-1)
    else
      var t := KlTypeOf(o);
      if HasFlag(t, KL_FILE_TRANSMIT) then Exit(-1)
      else
        var (ip, port) := CStr.SplitAtLast(o.host, ':');
        Start(ip, CStr.Atoi(port), o.rdTimeout, o.timeout, o.command, t)
  }

  /** A host written "ip:port" with a decimal port is split back into both,
      whatever colons the ip part itself holds. */
  lemma HostSplitRoundTrip(ip: string, port: nat, command: seq<byte>)
    requires command != []
    ensures var r := Main(Given(ip + ":" + CStr.NatToString(port), command));
      r.Start? && r.ip == ip && r.port == port
  {
    var p := CStr.NatToString(port);
    var host := ip + ":" + p;
    assert ':' in host by { assert host[|ip|] == ':'; }
    assert ':' !in p by {
      forall i | 0 <= i < |p| ensures p[i] != ':' {
        assert CStr.IsDigit(p[i]);
      }
    }
    CStr.SplitAtLastOfJoin(ip, ':', p);
    CStr.AtoiOfIntToString(port, "");
    assert CStr.IntToString(port) + "" == p;
  }

  /** Without a ':' both halves are the whole host, so the port is atoi of
      the whole text. */
  lemma HostWithoutColon(o: Options)
    requires !o.help && o.host != "" && o.command != [] && o.file == 0 && ':' !in o.host
    ensures Main(o).ip == o.host && Main(o).port == CStr.Atoi(o.host)
  {
  }

  /** How the socket calls of ConnectServer (socket, non-blocking mode,
      keep-alive, connect and its poll) turn out, taken together. */
  datatype SocketSetup = SocketReady(fd: nat) | SocketFailed

  /** The client connection and its read timeout. */
  datatype Client = Client(conn: ConnBase, rdTimeout: int)

  /** ConnectServer: an empty ip and then a non-positive port are refused
      before any socket is created; a working socket yields a fresh
      connection (kltype 0, sequence 0) with the read timeout set. */
  function ConnectServer(ip: string, port: int, rdTimeout: int, setup: SocketSetup): (r: Result<Client, string>)
    ensures ip == "" ==> r == Failure("Connect server ip is empty, please check")
    ensures ip != "" && port <= 0 ==> r == Failure("Connect server port is wrong, please check")
    ensures r.Success? <==> ip != "" && port > 0 && setup.SocketReady?
    ensures r.Success? ==> r.value.conn == NewConnBase(setup.fd) && r.value.rdTimeout == rdTimeout
  {
    if ip == "" then Failure("Connect server ip is empty, please check")
    else if port <= 0 then Failure("Connect server port is wrong, please check")
    else match setup
      case SocketFailed => Failure("Connect Socket Handle failed")
      case SocketReady(fd) => Success(Client(NewConnBase(fd), rdTimeout))
  }

  /** SetTimeout(int64_t): the uint64 option reinterpreted as a signed value. */
  function ToInt64(u: uint64): (i: int)
    ensures -(TWO_63 as int) <= i < TWO_63
    ensures u < TWO_63 ==> i == u
    ensures (i - u) % TWO_64 == 0
  {
    if u < TWO_63 then u else u - TWO_64
  }

  /** The cmd_mode kl_tool always sends: "rw". */
  const MODE_RW: seq<byte> := [0x72, 0x77]

  /** The KlCmdReq body SendCommandReq(cmd, mode, cmd_type) carries: no rate
      limit, the texts up to their first NUL. */
  function CommandBody(cmd: seq<byte>, mode: seq<byte>, cmdType: uint32): seq<byte> {
    EncodeCmdReq(CmdReq(0, UpToNul(cmd), cmdType, UpToNul(mode)))
  }

  /** The archive SendCommandReq fills before sealing. */
  function CommandArchive(h: CommHead, cmd: seq<byte>, mode: seq<byte>, cmdType: uint32, allocOk: bool): (r: (int, Buffer))
    ensures Built(h, CommandBody(cmd, mode, cmdType), r.0, r.1)
    ensures allocOk ==> r.0 == 0
  {
    var (r1, o1) := SerializeCommHead(NewArchive(), h, allocOk);
    if r1 != 0 then (r1, o1) else
    SerializeCmdReqBody(o1, CmdReqStruct(0, TextBuffer(UpToNul(cmd)), cmdType, TextBuffer(UpToNul(mode))), allocOk)
  }

  /** SendCommandReq(cmd, mode, cmd_type): a KL_CMD_OP packet under the
      connection's sequence number; with memory available the frame is the
      reference frame and the result is 0 exactly when the socket took it all. */
  function SendCommandReq(c: ConnBase, cmd: seq<byte>, mode: seq<byte>, cmdType: uint32, allocOk: bool, sent: int): (r: (int, Buffer))
    ensures r.1.Valid() && (r.0 == 0 || r.0 == 1)
    ensures allocOk ==> r.1.Content() == FrameOf(c, InitCommHead(KL_CMD_OP, c.innseq), CommandBody(cmd, mode, cmdType))
    ensures allocOk ==> (r.0 == 0 <==> sent == |FrameOf(c, InitCommHead(KL_CMD_OP, c.innseq), CommandBody(cmd, mode, cmdType))|)
  {
    var h := InitCommHead(KL_CMD_OP, c.innseq);
    var (r2, o2) := CommandArchive(h, cmd, mode, cmdType, allocOk);
    SealBuilt(c, h, CommandBody(cmd, mode, cmdType), r2, o2, sent)
  }

  /** Where `main` stands once the command is on its way: it has exited with
      a code, or it runs with this connection, the frame of the command
      request having been sent. */
  datatype Startup = Exited(code: int) | Running(conn: ConnBase, rdTimeout: int, request: seq<byte>)

  /** main up to the event loop: options, ConnectServer, SetTimeout, the
      receive buffer (ApplyBuffMem), then SendCommandReq(command, "rw", 0).
      `allocOk` is whether memory is available, `sent` what the socket takes. */
  function Launched(o: Options, setup: SocketSetup, allocOk: bool, sent: int): (r: Startup)
    ensures r.Exited? ==> r.code == 0 || r.code == -1
    ensures r.Running? ==> Main(o).Start? && setup.SocketReady? && allocOk
    ensures r.Running? ==> r.conn == NewConnBase(setup.fd).(timeout := ToInt64(o.timeout))
    ensures r.Running? ==> r.request == FrameOf(r.conn, InitCommHead(KL_CMD_OP, 0), CommandBody(o.command, MODE_RW, 0))
  {
    match Main(o)
    case Exit(code) => Exited(code)
    case Start(ip, port, rdTimeout, timeout, command, _) =>
      match ConnectServer(ip, port, rdTimeout, setup)
      case Failure(_) => Exited(-1)
      case Success(client) =>
        var conn := client.conn.(timeout := ToInt64(timeout));
        if !allocOk then Exited(-1)
        else
          var (rc, frame) := SendCommandReq(conn, command, MODE_RW, 0, allocOk, sent);
          if rc != 0 then Exited(-1) else Running(conn, rdTimeout, frame.Content())
  }

  /** The connection the client runs with keeps the kltype its constructor
      gives it, 0, whatever --daemon, --no_checksum or --kill_child say: the
      options fill the kl_type word only, so the client checksums every
      frame. */
  lemma OptionFlagsNotApplied(o: Options, setup: SocketSetup, allocOk: bool, sent: int)
    ensures var r := Launched(o, setup, allocOk, sent);
      r.Running? ==> r.conn.kltype == 0 && !HasFlag(r.conn.kltype, KL_NCHECKSUM)
  {
    var r := Launched(o, setup, allocOk, sent);
    if r.Running? {
      assert r.conn.kltype == NewConnBase(setup.fd).kltype;
      NoFlagInZero(KL_NCHECKSUM);
    }
  }

  lemma NoFlagInZero(flag: int)
    requires flag > 0
    ensures !HasFlag(0, flag)
  {
    assert 0 % TWO_32 == 0;
  }

  /** The server turns the command request back: the command text, open
      type 0 (popen), and mode "rw". */
  lemma CommandRoundTrip(c: ConnBase, c': ConnBase, cmd: seq<byte>, rBuf: Buffer, rChecksum: uint32, q: CmdReqStruct)
    requires ReadyToReceive(rBuf)
    requires HasFlag(c.kltype, KL_NCHECKSUM) == HasFlag(c'.kltype, KL_NCHECKSUM)
    requires |cmd| + 4 * HEADER_LEN <= BUFSIZE
    requires EmptyFields(q)
    ensures var f := FrameOf(c, InitCommHead(KL_CMD_OP, c.innseq), CommandBody(cmd, MODE_RW, 0));
      var (n, cs, b) := ReadMsg(rBuf, rChecksum, PollData(f[..4]), PollData(f[4..]));
      n > 0 && b.Valid() &&
      var (rc, h', b') := DeserializeCommHead(b, ZeroHead);
      rc == 0 && h'.cmdtype == KL_CMD_OP && h'.innseq == c.innseq && ChecksumCompareResult(c', b', 0, cs) &&
      var (rc2, q', b'') := DeserializeCmdReqBody(b', q, true);
      rc2 == 0 && q'.View() == CmdReq(0, UpToNul(cmd), 0, MODE_RW)
  {
    var h := InitCommHead(KL_CMD_OP, c.innseq);
    var m := CmdReq(0, UpToNul(cmd), 0, MODE_RW);
    var body := CommandBody(cmd, MODE_RW, 0);
    UpToNulWithoutNul(MODE_RW);
    ModSmall(|m.cmdReq|);
    ModSmall(|m.cmdMode|);
    assert |body| == 4 * HEADER_LEN + |m.cmdReq| + 2;
    FrameRoundTrip(c, c', h, body, rBuf, rChecksum);
    var f := FrameOf(c, h, body);
    var (n, cs, b) := ReadMsg(rBuf, rChecksum, PollData(f[..4]), PollData(f[4..]));
    var (rc, h', b') := DeserializeCommHead(b, ZeroHead);
    CmdReadBack(b', m, q);
  }

  /** Text without a NUL is copied whole. */
  lemma UpToNulWithoutNul(s: seq<byte>)
    requires 0 !in s
    ensures UpToNul(s) == s
  {
  }

  /** A command body read back from a buffer holding exactly its encoding. */
  lemma CmdReadBack(b: Buffer, m: CmdReq, q: CmdReqStruct)
    requires b.Valid() && b.Content() == EncodeCmdReq(m) && EmptyFields(q)
    requires |m.cmdReq| < TWO_32 && |m.cmdMode| < TWO_32
    ensures var (rc, q', _) := DeserializeCmdReqBody(b, q, true);
      rc == 0 && q'.View() == m
  {
    assert b.Content() == EncodeCmdReq(m) + [];
    CmdReqRoundTrip(b, m, q, []);
  }

  // ---------------------------------------------------------------------------
  // Packets and reactions

  /** A packet the client puts on the wire: a chunk (KL_PACK_OP), a notice
      ReplyCommAnswer(0, op) for END or TIMEOUT, or the quit notice
      ClientNotifyExit sends, ReplyCommAnswer(KL_TCP_ERR_INTERNAL_ERROR, KL_QUIT_OP). */
  datatype Packet = Pack(chunk: seq<byte>) | Notice(op: uint32) | Quit {
    function Cmdtype(): uint32 {
      match this
      case Pack(_) => KL_PACK_OP
      case Notice(op) => op
      case Quit => KL_QUIT_OP
    }

    /** The body the packet's frame carries. */
    function Body(): seq<byte> {
      match this
      case Pack(chunk) => chunk
      case Notice(_) => ReplyBody(0, [])
      case Quit => ReplyBody(KL_TCP_ERR_INTERNAL_ERROR as int32, [])
    }
  }

  /** What one event leaves the client doing: reading again, exiting with a
      code after sending some packets, or carrying on with some bytes written
      to stdout and the running checksum. */
  datatype Reaction =
    | Retry
    | Stop(code: int, sent: seq<Packet>)
    | Continue(out: seq<byte>, checksum: uint64)

  /** ClientNotifyExit() with its defaults: tell the server, exit with -1. */
  function NotifyExit(): (r: Reaction)
    ensures r.Stop? && r.code == -1 && r.sent == [Quit]
  {
    Stop(-1, [Quit])
  }

  /** CheckCommandTimeout firing, then ClientNotifyExit(). */
  function TimeoutExit(): (r: Reaction)
    ensures r.Stop? && r.code == -1 && r.sent == [Notice(KL_TIMEOUT_OP), Quit]
  {
    Stop(-1, [Notice(KL_TIMEOUT_OP), Quit])
  }

  /** The first argument of KlMsgChecksum: XOR unless the connection is in
      no-checksum mode. */
  function ChecksumTypeOf(c: ConnBase): (t: int)
    ensures t == 0 <==> HasFlag(c.kltype, KL_NCHECKSUM)
  {
    if HasFlag(c.kltype, KL_NCHECKSUM) then 0 else 1
  }

  // ---------------------------------------------------------------------------
  // The stdin thread (AsyncIoClient::ReadStdInMsg)

  /** One turn of the stdin loop: the read failed, or it returned `bytes`
      (none at end of input). `sent` is how much of the resulting frame the
      socket took and `cost` the KlCostMsec since the previous turn. */
  datatype StdinRead = ReadFailed | Read(bytes: ReadBytes, sent: int, cost: nat)

  /** read(fd, buf, BUFSIZE) never returns more than BUFSIZE bytes. */
  type ReadBytes = b: seq<byte> | |b| <= BUFSIZE

  /** How the stdin thread stands after the turns given: it returned after
      the END notice, it called exit, or it is still waiting for input. */
  datatype StdinEnd = StdinDone | StdinExit(code: int) | StdinPending

  datatype StdinRun = StdinRun(sent: seq<Packet>, end: StdinEnd, checksum: uint64)

  /** What one turn of the loop leads to: the thread is finished (returned
      or exited) with these packets, or it forwarded a chunk and goes on with
      the budget and checksum given. */
  datatype Turn =
    | Finished(run: StdinRun)
    | Forwarded(chunk: seq<byte>, budget: int, checksum: uint64)

  /** The read buffer after PackCommHeader(KL_PACK_OP): the PACK head sits
      after the two words, with room for BUFSIZE bytes behind it. The loop
      reuses this buffer; each turn rewrites only the words and the chunk,
      so every turn sends what a send from this buffer sends
      (SendFromAnyPackedBuffer). */
  function PackBuffer(c: ConnBase): (b: Buffer)
    ensures Packed(b, InitCommHead(KL_PACK_OP, c.innseq))
  {
    var blank := Buffer(seq(BUFSIZE + PACKET_HEAD_LEN, i => 0), 0, 0);
    PackedAfterHeader(c, KL_PACK_OP, blank, true);
    PackCommHeader(c, KL_PACK_OP, blank, true).1
  }

  /** The outcome of sending a chunk, its hash and the frame, do not depend
      on which packed buffer carries it. */
  lemma SendFromAnyPackedBuffer(c: ConnBase, b: Buffer, chunk: seq<byte>, sent: int)
    requires Packed(b, InitCommHead(KL_PACK_OP, c.innseq)) && 0 < |chunk| <= BUFSIZE
    ensures var h := InitCommHead(KL_PACK_OP, c.innseq);
      var (rc, hash, o) := SendChunk(c, b, h, chunk, sent);
      var (rc2, hash2, o2) := SendChunk(c, PackBuffer(c), h, chunk, sent);
      (rc == 0 <==> rc2 == 0) && hash == hash2 && o.Content() == o2.Content()
  {
  }

  /** One pass of the loop body: a failed read exits with a quit notice; end
      of input sends the END notice; a chunk goes through ChunkTurn. */
  function StdinTurn(c: ConnBase, budget: int, checksum: uint64, turn: StdinRead): (t: Turn)
    ensures t.Forwarded? <==> Delivered(turn) && budget - turn.cost > 0
    ensures t.Forwarded? ==> t.chunk == turn.bytes && t.budget == budget - turn.cost
    ensures t.Forwarded? ==> t.checksum == MsgChecksum(checksum, ChecksumTypeOf(c), BodyChecksum(c, turn.bytes))
    ensures t.Finished? ==> !t.run.end.StdinPending? && (t.run.end.StdinExit? ==> t.run.end.code == -1)
    ensures t.Finished? && t.run.end.StdinDone? ==> t.run.sent == [Notice(KL_END_OP)]
  {
    match turn
    case ReadFailed => Finished(StdinRun([Quit], StdinExit(-1), checksum))
    case Read(bytes, sent, cost) =>
      if |bytes| == 0 then Finished(EndOfInput(c, checksum, sent))
      else ChunkTurn(c, budget, checksum, bytes, sent, cost)
  }

  /** The loop over the turns given; it is pending when the turns run out
      before it finishes. */
  function StdinLoop(c: ConnBase, budget: int, checksum: uint64, turns: seq<StdinRead>): (r: StdinRun)
    ensures r.end.StdinExit? ==> r.end.code == -1
    ensures r.end.StdinDone? ==> |r.sent| > 0 && r.sent[|r.sent| - 1] == Notice(KL_END_OP)
    decreases |turns|
  {
    if |turns| == 0 then StdinRun([], StdinPending, checksum)
    else match StdinTurn(c, budget, checksum, turns[0])
      case Finished(run) => run
      case Forwarded(chunk, left, sum) =>
        var rest := StdinLoop(c, left, sum, turns[1..]);
        StdinRun([Pack(chunk)] + rest.sent, rest.end, rest.checksum)
  }

  /** End of input: ReplyCommAnswer(0, KL_END_OP), and the thread returns
      when the socket took the whole notice and exits otherwise. */
  function EndOfInput(c: ConnBase, checksum: uint64, sent: int): (r: StdinRun)
    ensures r.sent == [Notice(KL_END_OP)] && r.checksum == checksum
    ensures r.end == (if sent == PACKET_HEAD_LEN + 8 then StdinDone else StdinExit(-1))
  {
    StdinRun([Notice(KL_END_OP)], if sent == PACKET_HEAD_LEN + 8 then StdinDone else StdinExit(-1), checksum)
  }

  /** One chunk: CalcSendChecksum from the packet head, KlMsgChecksum, then
      KlSendMsg, then the budget. The chunk's hash is folded in whether or not
      the send succeeds; a failed send exits without a quit notice, and a
      used-up budget sends a TIMEOUT notice and a quit notice before the exit. */
  function ChunkTurn(c: ConnBase, budget: int, checksum: uint64, chunk: seq<byte>, sent: int, cost: nat): (t: Turn)
    requires 0 < |chunk| <= BUFSIZE
    ensures t.Forwarded? <==> sent == PACKET_HEAD_LEN + |chunk| && budget - cost > 0
    ensures t.Forwarded? ==> t.chunk == chunk && t.budget == budget - cost
    ensures t.Forwarded? ==> t.checksum == MsgChecksum(checksum, ChecksumTypeOf(c), BodyChecksum(c, chunk))
    ensures t.Finished? ==> t.run.end == StdinExit(-1)
    ensures t.Finished? ==> t.run.checksum == MsgChecksum(checksum, ChecksumTypeOf(c), BodyChecksum(c, chunk))
    ensures t.Finished? ==> t.run.sent == (if sent == PACKET_HEAD_LEN + |chunk| then [Pack(chunk), Notice(KL_TIMEOUT_OP), Quit] else [Pack(chunk)])
  {
    var sum := MsgChecksum(checksum, ChecksumTypeOf(c), BodyChecksum(c, chunk));
    if sent != PACKET_HEAD_LEN + |chunk| then Finished(StdinRun([Pack(chunk)], StdinExit(-1), sum))
    else if budget - cost <= 0 then
      Finished(StdinRun([Pack(chunk), Notice(KL_TIMEOUT_OP), Quit], StdinExit(-1), sum))
    else Forwarded(chunk, budget - cost, sum)
  }

  /** The chunk turn as the loop body computes it: the frame is sealed in
      the packed read buffer and KlSendMsg reports whether it all went out. */
  function SentChunkTurn(c: ConnBase, budget: int, checksum: uint64, chunk: seq<byte>, sent: int, cost: nat): Turn
    requires 0 < |chunk| <= BUFSIZE
  {
    var (rc, hash, _) := SendChunk(c, PackBuffer(c), InitCommHead(KL_PACK_OP, c.innseq), chunk, sent);
    var sum := MsgChecksum(checksum, ChecksumTypeOf(c), hash);
    if rc != 0 then Finished(StdinRun([Pack(chunk)], StdinExit(-1), sum))
    else if budget - cost <= 0 then
      Finished(StdinRun([Pack(chunk), Notice(KL_TIMEOUT_OP), Quit], StdinExit(-1), sum))
    else Forwarded(chunk, budget - cost, sum)
  }

  /** ChunkTurn is what the loop body does with the packed read buffer. */
  lemma ChunkTurnSends(c: ConnBase, budget: int, checksum: uint64, chunk: seq<byte>, sent: int, cost: nat)
    requires 0 < |chunk| <= BUFSIZE
    ensures SentChunkTurn(c, budget, checksum, chunk, sent, cost) == ChunkTurn(c, budget, checksum, chunk, sent, cost)
  {
  }

  /** The END notice as the loop body sends it, through ReplyCommAnswer. */
  function SentEndOfInput(c: ConnBase, checksum: uint64, sent: int): StdinRun {
    var (rc, _) := ReplyCommAnswer(c, 0, KL_END_OP, [], true, sent);
    StdinRun([Notice(KL_END_OP)], if rc == 0 then StdinDone else StdinExit(-1), checksum)
  }

  /** EndOfInput is what ReplyCommAnswer(0, KL_END_OP) leads to: the notice
      frame is PACKET_HEAD_LEN + 8 bytes long. */
  lemma EndOfInputSends(c: ConnBase, checksum: uint64, sent: int)
    ensures SentEndOfInput(c, checksum, sent) == EndOfInput(c, checksum, sent)
  {
    assert |ReplyBody(0, [])| == 8;
  }

  /** ReadStdInMsg: `ready` says whether stdin could be made blocking, the
      read buffer reserved and the PACK head packed into it; the budget is
      the connection's timeout and the checksum starts from the 0 main
      stores. */
  function StdinThread(c: ConnBase, ready: bool, turns: seq<StdinRead>): (r: StdinRun)
    ensures !ready ==> r == StdinRun([Quit], StdinExit(-1), 0)
    ensures r.end.StdinExit? ==> r.end.code == -1
  {
    if !ready then StdinRun([Quit], StdinExit(-1), 0)
    else StdinLoop(c, c.timeout, 0, turns)
  }

  /** The chunks read, in order. */
  function Chunks(turns: seq<StdinRead>): (r: seq<seq<byte>>)
    requires forall i :: 0 <= i < |turns| ==> turns[i].Read?
    ensures |r| == |turns| && forall i :: 0 <= i < |turns| ==> r[i] == turns[i].bytes
  {
    if |turns| == 0 then [] else [turns[0].bytes] + Chunks(turns[1..])
  }

  function PackPackets(chunks: seq<seq<byte>>): (r: seq<Packet>)
    ensures |r| == |chunks| && forall i :: 0 <= i < |chunks| ==> r[i] == Pack(chunks[i])
  {
    if |chunks| == 0 then [] else [Pack(chunks[0])] + PackPackets(chunks[1..])
  }

  /** The hash each chunk carries on connection `c`. */
  function ChunkHashes(c: ConnBase, chunks: seq<seq<byte>>): (r: seq<uint32>)
    ensures |r| == |chunks| && forall i :: 0 <= i < |chunks| ==> r[i] == BodyChecksum(c, chunks[i])
  {
    if |chunks| == 0 then [] else [BodyChecksum(c, chunks[0])] + ChunkHashes(c, chunks[1..])
  }

  function TotalCost(turns: seq<StdinRead>): nat
    requires forall i :: 0 <= i < |turns| ==> turns[i].Read?
  {
    if |turns| == 0 then 0 else turns[0].cost + TotalCost(turns[1..])
  }

  /** A non-empty chunk the socket took whole. */
  predicate Delivered(rd: StdinRead) {
    rd.Read? && 0 < |rd.bytes| && rd.sent == PACKET_HEAD_LEN + |rd.bytes|
  }

  /** All turns delivered inside the budget: the thread is still waiting,
      having forwarded every chunk as one PACK packet, in order, with exactly
      those chunks' hashes folded into the checksum. */
  lemma {:induction false} StdinForwardsAll(c: ConnBase, budget: int, checksum: uint64, turns: seq<StdinRead>)
    requires forall i :: 0 <= i < |turns| ==> turns[i].Read? && Delivered(turns[i])
    requires TotalCost(turns) < budget
    ensures StdinLoop(c, budget, checksum, turns)
         == StdinRun(PackPackets(Chunks(turns)), StdinPending,
                     Accumulate(checksum, ChecksumTypeOf(c), ChunkHashes(c, Chunks(turns))))
    decreases |turns|
  {
    if |turns| > 0 {
      var rd := turns[0];
      var sum := MsgChecksum(checksum, ChecksumTypeOf(c), BodyChecksum(c, rd.bytes));
      ForwardedCons(c, checksum, turns);
      StdinForwardsAll(c, budget - rd.cost, sum, turns[1..]);
      ConsSplit(turns, []);
      LoopStep(c, budget, checksum, rd, turns[1..] + []);
    }
  }

  /** A delivered chunk inside the budget: one PACK packet, then the rest of the loop. */
  lemma LoopStep(c: ConnBase, budget: int, checksum: uint64, rd: StdinRead, turns: seq<StdinRead>)
    requires Delivered(rd) && rd.cost < budget
    ensures var rest := StdinLoop(c, budget - rd.cost, MsgChecksum(checksum, ChecksumTypeOf(c), BodyChecksum(c, rd.bytes)), turns);
      StdinLoop(c, budget, checksum, [rd] + turns) == StdinRun([Pack(rd.bytes)] + rest.sent, rest.end, rest.checksum)
  {
    assert ([rd] + turns)[0] == rd && ([rd] + turns)[1..] == turns;
  }

  /** End of input after chunks that all went out inside the budget: the
      END notice follows the chunks' PACK packets, the thread returns exactly
      when the notice went out whole, and nothing after it is read. */
  lemma {:induction false} StdinEndsAtEof(c: ConnBase, budget: int, checksum: uint64,
                       good: seq<StdinRead>, sent: int, cost: nat, later: seq<StdinRead>)
    requires forall i :: 0 <= i < |good| ==> good[i].Read? && Delivered(good[i])
    requires TotalCost(good) < budget
    ensures StdinLoop(c, budget, checksum, good + ([Read([], sent, cost)] + later))
         == StdinRun(PackPackets(Chunks(good)) + [Notice(KL_END_OP)],
                     if sent == PACKET_HEAD_LEN + 8 then StdinDone else StdinExit(-1),
                     Accumulate(checksum, ChecksumTypeOf(c), ChunkHashes(c, Chunks(good))))
    decreases |good|
  {
    var tail := [Read([], sent, cost)] + later;
    if |good| == 0 {
      assert good + tail == tail;
      EofStep(c, budget, checksum, sent, cost, later);
    } else {
      var rd := good[0];
      var sum := MsgChecksum(checksum, ChecksumTypeOf(c), BodyChecksum(c, rd.bytes));
      ForwardedCons(c, checksum, good);
      StdinEndsAtEof(c, budget - rd.cost, sum, good[1..], sent, cost, later);
      ConsSplit(good, tail);
      LoopStep(c, budget, checksum, rd, good[1..] + tail);
      AppendCons(Pack(rd.bytes), PackPackets(Chunks(good[1..])), [Notice(KL_END_OP)]);
    }
  }

  /** The chunk that uses up the budget still goes out, followed by a
      TIMEOUT notice and a quit notice, and the client exits with -1; its
      hash is the last one folded in. */
  lemma {:induction false} StdinTimesOut(c: ConnBase, budget: int, checksum: uint64,
                      good: seq<StdinRead>, last: StdinRead, later: seq<StdinRead>)
    requires forall i :: 0 <= i < |good| ==> good[i].Read? && Delivered(good[i])
    requires Delivered(last)
    requires TotalCost(good) < budget <= TotalCost(good) + last.cost
    ensures StdinLoop(c, budget, checksum, good + ([last] + later))
         == StdinRun(PackPackets(Chunks(good)) + [Pack(last.bytes), Notice(KL_TIMEOUT_OP), Quit], StdinExit(-1),
                     MsgChecksum(Accumulate(checksum, ChecksumTypeOf(c), ChunkHashes(c, Chunks(good))),
                                 ChecksumTypeOf(c), BodyChecksum(c, last.bytes)))
    decreases |good|
  {
    var tail := [last] + later;
    if |good| == 0 {
      assert good + tail == tail;
      TimeoutStep(c, budget, checksum, last, later);
    } else {
      var rd := good[0];
      var sum := MsgChecksum(checksum, ChecksumTypeOf(c), BodyChecksum(c, rd.bytes));
      ForwardedCons(c, checksum, good);
      StdinTimesOut(c, budget - rd.cost, sum, good[1..], last, later);
      ConsSplit(good, tail);
      LoopStep(c, budget, checksum, rd, good[1..] + tail);
      AppendCons(Pack(rd.bytes), PackPackets(Chunks(good[1..])), [Pack(last.bytes), Notice(KL_TIMEOUT_OP), Quit]);
    }
  }

  /** A delivered chunk that uses up the budget ends the loop. */
  lemma TimeoutStep(c: ConnBase, budget: int, checksum: uint64, last: StdinRead, later: seq<StdinRead>)
    requires Delivered(last) && budget <= last.cost
    ensures StdinLoop(c, budget, checksum, [last] + later)
         == StdinRun([Pack(last.bytes), Notice(KL_TIMEOUT_OP), Quit], StdinExit(-1),
                     MsgChecksum(checksum, ChecksumTypeOf(c), BodyChecksum(c, last.bytes)))
  {
    assert ([last] + later)[0] == last;
  }

  /** The packets, hashes and costs of delivered turns, split after the first. */
  lemma ForwardedCons(c: ConnBase, checksum: uint64, turns: seq<StdinRead>)
    requires |turns| > 0 && forall i :: 0 <= i < |turns| ==> turns[i].Read?
    ensures PackPackets(Chunks(turns)) == [Pack(turns[0].bytes)] + PackPackets(Chunks(turns[1..]))
    ensures Accumulate(checksum, ChecksumTypeOf(c), ChunkHashes(c, Chunks(turns)))
         == Accumulate(MsgChecksum(checksum, ChecksumTypeOf(c), BodyChecksum(c, turns[0].bytes)),
                       ChecksumTypeOf(c), ChunkHashes(c, Chunks(turns[1..])))
    ensures TotalCost(turns) == turns[0].cost + TotalCost(turns[1..])
  {
    var chunks, hs := Chunks(turns), ChunkHashes(c, Chunks(turns));
    assert chunks[1..] == Chunks(turns[1..]);
    assert hs[1..] == ChunkHashes(c, chunks[1..]);
    AccumulateStep(checksum, ChecksumTypeOf(c), hs);
  }

  lemma ConsSplit<T>(s: seq<T>, t: seq<T>)
    requires |s| > 0
    ensures s + t == [s[0]] + (s[1..] + t)
  {
  }

  lemma AppendCons<T>(x: T, s: seq<T>, t: seq<T>)
    ensures [x] + (s + t) == ([x] + s) + t
  {
  }

  /** End of input ends the loop with the END notice. */
  lemma EofStep(c: ConnBase, budget: int, checksum: uint64, sent: int, cost: nat, later: seq<StdinRead>)
    ensures StdinLoop(c, budget, checksum, [Read([], sent, cost)] + later)
         == StdinRun([Notice(KL_END_OP)], if sent == PACKET_HEAD_LEN + 8 then StdinDone else StdinExit(-1), checksum)
  {
    assert ([Read([], sent, cost)] + later)[0] == Read([], sent, cost);
  }

  lemma AccumulateStep(checksum: uint64, checksumType: int, hashes: seq<uint32>)
    requires |hashes| > 0
    ensures Accumulate(checksum, checksumType, hashes) == Accumulate(MsgChecksum(checksum, checksumType, hashes[0]), checksumType, hashes[1..])
  {
  }
}
