/** The server side of a kl_tcp connection: KServerHandle::HandleClientMsg
    with its packet checks (length, head, sequence number, checksum), the
    command request (KlCommandHandle, KlPopenExecCommand, the system()
    path), the packets accepted while the command runs, and the cleanup
    after the loop (SetAconnState, ClearTmpEnv, and the end of run()); and
    KWaitChildPid, the queue of children left to the recycling thread.

    Each pass of the loop is driven by an Arrival: what KlReadMsg returned
    (length, checksum word, the buffer), and an Env with what the session
    cannot see in the packet: whether the reader thread has ended, the
    indeterminate integers of the stack-allocated request, whether memory
    is available, how much of a reply frame the socket takes, what fork,
    the child's stat file and system() report, and the reader's running
    checksum at that moment. */
module ServerSession {
  import opened Wrappers
  import opened Bytes
  import opened Buffers
  import opened Protocol
  import opened TcpComm
  import opened Framing
  import KlTool
  import PCmd

  // ---------------------------------------------------------------------------
  // KWaitChildPid

  /** GetFirstChildPid: the pid waiting longest leaves the queue; an empty
      queue gives 0. */
  function GetFirstChildPid(pids: seq<int>): (r: (int, seq<int>))
    ensures (if |pids| == 0 then [] else [r.0]) + r.1 == pids
    ensures |pids| == 0 ==> r.0 == 0
  {
    if |pids| == 0 then (0, []) else (pids[0], pids[1..])
  }

  /** AddChildPid: a pid joins at the back. */
  function AddChildPid(pids: seq<int>, pid: int): (r: seq<int>)
    ensures |r| == |pids| + 1 && r[..|pids|] == pids && r[|pids|] == pid
  {
    pids + [pid]
  }

  /** One round of the recycling thread: the first pid, if positive, is
      checked; a child still running goes back to the end of the queue, an
      exited one (and a non-positive pid) is dropped. */
  function RecycleRound(pids: seq<int>, exited: bool): (r: seq<int>)
    ensures |pids| == 0 ==> r == []
    ensures |pids| > 0 && pids[0] > 0 && !exited ==> multiset(r) == multiset(pids)
    ensures |pids| > 0 && (pids[0] <= 0 || exited) ==> multiset(r) == multiset(pids) - multiset{pids[0]}
  {
    var (pid, rest) := GetFirstChildPid(pids);
    if pid > 0 && !exited then AddChildPid(rest, pid) else rest
  }

  /** The queue is served in order: pids added one by one are taken back in
      the order they were added. */
  function TakeAll(pids: seq<int>, n: nat): (r: seq<int>)
    requires n <= |pids|
    ensures |r| == n
  {
    if n == 0 then [] else
      var (pid, rest) := GetFirstChildPid(pids);
      [pid] + TakeAll(rest, n - 1)
  }

  function AddAll(pids: seq<int>, added: seq<int>): (r: seq<int>)
    ensures |r| == |pids| + |added|
    decreases |added|
  {
    if |added| == 0 then pids else AddAll(AddChildPid(pids, added[0]), added[1..])
  }

  lemma {:induction false} QueueIsFifo(pids: seq<int>, added: seq<int>)
    ensures TakeAll(AddAll(pids, added), |pids| + |added|) == pids + added
    decreases |added|
  {
    if |added| == 0 {
      TakeAllWhole(pids);
    } else {
      QueueIsFifo(AddChildPid(pids, added[0]), added[1..]);
      assert AddChildPid(pids, added[0]) + added[1..] == pids + added;
    }
  }

  lemma {:induction false} TakeAllWhole(pids: seq<int>)
    ensures TakeAll(pids, |pids|) == pids
    decreases |pids|
  {
    if |pids| > 0 {
      TakeAllWhole(pids[1..]);
    }
  }

  // ---------------------------------------------------------------------------
  // The session record

  /** A command the session started: through popen with its mode, or
      through system(). */
  datatype Launch = Popened(cmd: string, mode: string) | Systemed(cmd: string)

  /** A reply the session put on the wire whole. */
  datatype Reply = ReplyEnd(code: int32) | ReplyResp(code: int32, text: seq<byte>) | ReplyChecksum(value: uint64)

  /** KServerHandle during HandleClientMsg: the connection, servstat_, `r`,
      ExitLoop, kp_file_, whether the reader thread (server_rd_) exists, and
      what was launched, replied and killed so far. */
  datatype Session = Session(conn: ConnBase, state: TaskState, r: int, exitLoop: bool,
                             kp: Option<PCmd.Popen>, readerStarted: bool,
                             launched: seq<Launch>, replies: seq<Reply>, killSent: bool)

  function NewSession(conn: ConnBase): (s: Session)
    ensures s.state == KL_INITIALIZE && s.r == 0 && !s.exitLoop && !s.readerStarted
  {
    Session(conn, KL_INITIALIZE, 0, false, None, false, [], [], false)
  }

  /** What one pass sees beyond the packet (see the module comment). */
  datatype Env = Env(childEnded: bool, stackRate: uint32, stackOpen: uint32, allocOk: bool, replySent: int,
                     sys: PCmd.Spawn, watch: PCmd.Watch, systemStatus: int32, readerChecksum: uint64,
                     errText: seq<byte>)

  /** One pass of the loop: KlReadMsg's length, checksum word and buffer. */
  datatype Arrival = Arrival(len: int, rChecksum: uint32, buf: Buffer, env: Env)

  /** The frame ReplyCommAnswer(code, op, text) sends on `c`. */
  function ReplyFrame(c: ConnBase, op: uint32, code: int32, text: seq<byte>): seq<byte> {
    FrameOf(c, InitCommHead(op, c.innseq), ReplyBody(code, text))
  }

  /** The frame SendChecksumPacket(KL_CHECKSUM_OP, value) sends on `c`. */
  function ChecksumFrameOf(c: ConnBase, value: uint64): seq<byte> {
    FrameOf(c, InitCommHead(KL_CHECKSUM_OP, c.innseq), EncodeCommReq(CommReq(ChecksumText(value))))
  }

  /** The socket took the whole ReplyCommAnswer frame. */
  predicate ReplyTaken(c: ConnBase, op: uint32, code: int32, text: seq<byte>, sent: int) {
    sent == |ReplyFrame(c, op, code, text)|
  }

  /** The socket took the whole checksum frame. */
  predicate ChecksumTaken(c: ConnBase, value: uint64, sent: int) {
    sent == |ChecksumFrameOf(c, value)|
  }

  /** The session's sends, with the memory for their small archives
      available, succeed exactly when the socket takes the whole frame. */
  lemma SessionSends(c: ConnBase, op: uint32, code: int32, text: seq<byte>, value: uint64, sent: int)
    ensures ReplyCommAnswer(c, code, op, text, true, sent).0 == 0 <==> ReplyTaken(c, op, code, text, sent)
    ensures SendChecksumPacket(c, KL_CHECKSUM_OP, value, true, sent).0 == 0 <==> ChecksumTaken(c, value, sent)
  {
  }

  /** An END reply, recorded when the socket takes it whole. */
  function Replied(s: Session, code: int32, env: Env): (t: Session)
    ensures t == s || t == s.(replies := s.replies + [ReplyEnd(code)])
    ensures t != s <==> ReplyTaken(s.conn, KL_END_OP, code, [], env.replySent)
  {
    if ReplyTaken(s.conn, KL_END_OP, code, [], env.replySent) then s.(replies := s.replies + [ReplyEnd(code)]) else s
  }

  function CloseWrite(kp: Option<PCmd.Popen>): (r: Option<PCmd.Popen>)
    ensures r.Some? == kp.Some? && (r.Some? ==> !r.value.writeOpen && r.value.childPid == kp.value.childPid)
  {
    match kp
    case None => None
    case Some(p) => Some(PCmd.CloseWriteFp(p))
  }

  // ---------------------------------------------------------------------------
  // The command request

  /** The mode handed to OpenCmd, as written: the request's mode, or "rwc"
      when it is empty. */
  function ModeTextAsWritten(m: seq<byte>): string {
    if |m| == 0 then "rwc" else AsText(m)
  }

  /** The default evidently meant: a mode OpenCmd accepts, reading and
      writing, as kl_tool itself sends. */
  function ModeText(m: seq<byte>): (mode: string)
    ensures |m| == 0 ==> PCmd.ParseMode(mode) == Some(PCmd.OpenMode(true, true, true, false))
    ensures |m| > 0 ==> mode == AsText(m)
  {
    if |m| == 0 then PCmd.ReadWriteModeAccepted(); "rw" else AsText(m)
  }

  /** KlPopenExecCommand: a new KPopenCmd(0) opened with waiting for the
      exec; on success the session enters KL_CMD_INPUT and starts the
      reader thread on the child's stdout. The handle is kept either way. */
  function PopenExec(s: Session, cmd: string, mode: string, env: Env): (r: (int32, Session))
    ensures r.0 == 0 || r.0 == KL_TCP_ERR_INTERNAL_ERROR
    ensures r.0 == 0 <==> PCmd.OpenCmd(PCmd.NewPopen(0), cmd, mode, true, env.sys, env.watch).0
    ensures r.1.kp == Some(PCmd.OpenCmd(PCmd.NewPopen(0), cmd, mode, true, env.sys, env.watch).1)
    ensures r.0 == 0 ==> r.1 == s.(kp := r.1.kp, state := KL_CMD_INPUT, readerStarted := true,
                                   launched := s.launched + [Popened(cmd, mode)])
    ensures r.0 != 0 ==> r.1 == s.(kp := r.1.kp)
  {
    var (ok, p) := PCmd.OpenCmd(PCmd.NewPopen(0), cmd, mode, true, env.sys, env.watch);
    if !ok then (KL_TCP_ERR_INTERNAL_ERROR as int32, s.(kp := Some(p)))
    else (0, s.(kp := Some(p), state := KL_CMD_INPUT, readerStarted := true, launched := s.launched + [Popened(cmd, mode)]))
  }

  /** KlCommandHandle once the mode text is settled: the rate limit is taken
      from the request; the command is the request's text up to its first
      NUL; open type 0 runs it through popen in `mode`, anything else
      through system(), whose status is the result. */
  function CommandHandleWith(s: Session, q: CmdReqStruct, mode: string, env: Env): (r: (int32, Session))
    requires q.Valid()
    ensures r.1.conn == s.conn.(ratelimit := q.ratelimit)
    ensures q.openType != 0 ==> r.0 == env.systemStatus && r.1.launched == s.launched + [Systemed(AsText(UpToNul(q.cmdReq.Content())))]
    ensures q.openType == 0 ==> r.0 == 0 || r.0 == KL_TCP_ERR_INTERNAL_ERROR
    ensures q.openType == 0 && r.0 == 0 ==>
      r.1.state == KL_CMD_INPUT && r.1.readerStarted &&
      r.1.launched == s.launched + [Popened(AsText(UpToNul(q.cmdReq.Content())), mode)]
    ensures q.openType == 0 ==> (r.0 == 0 <==> PCmd.OpenCmd(PCmd.NewPopen(0), AsText(UpToNul(q.cmdReq.Content())), mode, true, env.sys, env.watch).0)
    ensures q.openType == 0 && r.0 == 0 ==> r.1.kp.Some?
    ensures q.openType == 0 && r.0 != 0 ==> r.1.launched == s.launched && r.1.state == s.state
    ensures r.1.replies == s.replies && r.1.r == s.r && r.1.killSent == s.killSent && r.1.exitLoop == s.exitLoop
    ensures r.1.state == s.state || r.1.state == KL_CMD_INPUT
    ensures (q.openType == 0 && r.0 == 0) || r.1.readerStarted == s.readerStarted
  {
    var s1 := s.(conn := s.conn.(ratelimit := q.ratelimit));
    var cmd := AsText(UpToNul(q.cmdReq.Content()));
    if q.openType == 0 then PopenExec(s1, cmd, mode, env)
    else (env.systemStatus, s1.(launched := s1.launched + [Systemed(cmd)]))
  }

  /** KlCommandHandle as written: an empty mode becomes "rwc". */
  function CommandHandleAsWritten(s: Session, q: CmdReqStruct, env: Env): (r: (int32, Session))
    requires q.Valid()
    ensures q.openType == 0 && q.cmdMode.Content() == [] ==> r.0 == KL_TCP_ERR_INTERNAL_ERROR
  {
    PCmd.UnknownLetterRejected();
    CommandHandleWith(s, q, ModeTextAsWritten(q.cmdMode.Content()), env)
  }

  /** KlCommandHandle with the default evidently meant: an empty mode
      becomes "rw", which OpenCmd accepts. */
  function CommandHandle(s: Session, q: CmdReqStruct, env: Env): (r: (int32, Session))
    requires q.Valid()
    ensures q.openType == 0 && q.cmdMode.Content() == [] && SpawnSucceeds(env.sys, env.watch) ==> r.0 == 0
  {
    PCmd.ReadWriteModeAccepted();
    CommandHandleWith(s, q, ModeText(q.cmdMode.Content()), env)
  }

  /** The KlCmdReq on the stack: its Buffers are constructed empty, its
      integers hold whatever the stack held. */
  function StackCmdReq(env: Env): (q: CmdReqStruct)
    ensures EmptyFields(q)
  {
    CmdReqStruct(env.stackRate, NewBuffer(env.allocOk), env.stackOpen, NewBuffer(env.allocOk))
  }

  /** After the handler: a non-zero result is sent back in an END reply; a
      command run through system() (open type 1) that returned 0 also gets
      END 0. The result becomes the loop's `r`. */
  function Answer(s: Session, rc: int32, openType: uint32, env: Env): (t: Session)
    ensures t.r == rc as int && t.launched == s.launched && t.state == s.state && t.conn == s.conn
    ensures rc != 0 || openType == 1 ==> t == Replied(s.(r := rc as int), rc, env)
    ensures rc == 0 && openType != 1 ==> t == s.(r := 0)
  {
    var s1 := s.(r := rc as int);
    if rc != 0 || openType == 1 then Replied(s1, rc, env)
    else s1
  }

  /** The KL_CMD_OP branch as written: the result of deserializing the body
      is overwritten by the handler's, so a request that fails to
      deserialize is still handled, with whatever fields were read and the
      stack's values for the rest. */
  function CmdPacketAsWritten(s: Session, b: Buffer, env: Env): (t: Session)
    requires b.Valid()
    ensures var q := DeserializeCmdReqBody(b, StackCmdReq(env), env.allocOk).1;
      t.r == CommandHandleAsWritten(s, q, env).0 as int &&
      t.launched == CommandHandleAsWritten(s, q, env).1.launched
    ensures t.conn.innseq == s.conn.innseq && (t.state == s.state || t.state == KL_CMD_INPUT)
  {
    var (_, q, _) := DeserializeCmdReqBody(b, StackCmdReq(env), env.allocOk);
    var (rc, s1) := CommandHandleAsWritten(s, q, env);
    Answer(s1, rc, q.openType, env)
  }

  /** The KL_CMD_OP branch as evidently meant: a request that does not
      deserialize closes the connection (with an END reply carrying
      KL_TCP_ERR_CONN_CLOSED) and runs nothing; one that does is handled
      with the "rw" default. */
  function CmdPacket(s: Session, b: Buffer, env: Env): (t: Session)
    requires b.Valid()
    ensures DeserializeCmdReqBody(b, StackCmdReq(env), env.allocOk).0 != 0 ==>
      t.r == KL_TCP_ERR_CONN_CLOSED && t.launched == s.launched && t.state == s.state
    ensures var (drc, q, _) := DeserializeCmdReqBody(b, StackCmdReq(env), env.allocOk);
      drc == 0 ==> t.r == CommandHandle(s, q, env).0 as int && t.launched == CommandHandle(s, q, env).1.launched
    ensures t.conn.innseq == s.conn.innseq && (t.state == s.state || t.state == KL_CMD_INPUT)
  {
    var (drc, q, _) := DeserializeCmdReqBody(b, StackCmdReq(env), env.allocOk);
    if drc != 0 then Answer(s, KL_TCP_ERR_CONN_CLOSED as int32, 0, env)
    else
      var (rc, s1) := CommandHandle(s, q, env);
      Answer(s1, rc, q.openType, env)
  }

  /** The KL_FILE_OP branch: the request is deserialized but the handler is
      a stub returning 0, so the session only answers RESP 0 with its error
      text; a failed answer corrupts the connection. */
  function FilePacket(s: Session, env: Env): (t: Session)
    ensures t.r == 0 || t.r == KL_TCP_ERR_CONN_CORRUPT
    ensures t.r == 0 <==> ReplyTaken(s.conn, KL_RESP_OP, 0, env.errText, env.replySent)
    ensures t.r == 0 ==> t == s.(r := 0, replies := s.replies + [ReplyResp(0, UpToNul(env.errText))])
    ensures t.r != 0 ==> t == s.(r := KL_TCP_ERR_CONN_CORRUPT)
  {
    if ReplyTaken(s.conn, KL_RESP_OP, 0, env.errText, env.replySent) then s.(r := 0, replies := s.replies + [ReplyResp(0, UpToNul(env.errText))])
    else s.(r := KL_TCP_ERR_CONN_CORRUPT)
  }

  // ---------------------------------------------------------------------------
  // One pass of HandleClientMsg

  /** The switch on servstat_ for an admitted packet (the head read, the
      sequence number checked or adopted). KL_AUTHORIZE takes command and
      file requests; KL_CMD_INPUT takes END (answer with the reader's
      running checksum, close the child's stdin, leave the loop), PACK
      (KlTcpMsgWriteCommand is a stub: the data is dropped) and TIMEOUT
      (kill the child if the connection asked for it, then close). Every
      one of these first checks the packet's checksum. */
  function Dispatch(s: Session, op: uint32, b: Buffer, rChecksum: uint32, env: Env): (t: Session)
    requires b.Valid()
    ensures t.conn.innseq == s.conn.innseq
    ensures s.state == KL_AUTHORIZE ==> t.state == KL_AUTHORIZE || t.state == KL_CMD_INPUT
    ensures s.state != KL_AUTHORIZE ==> t.state == s.state && t.launched == s.launched
    ensures s.state == KL_AUTHORIZE ==> t == AuthorizePacket(s, op, b, ChecksumCompareResult(s.conn, b, 0, rChecksum), env)
  {
    match s.state
    case KL_AUTHORIZE => AuthorizePacket(s, op, b, ChecksumCompareResult(s.conn, b, 0, rChecksum), env)
    case KL_CMD_INPUT => InputPacket(s, op, ChecksumCompareResult(s.conn, b, 0, rChecksum), env)
    case _ => s
  }

  /** A packet in KL_AUTHORIZE, `good` telling whether its checksum held. */
  function AuthorizePacket(s: Session, op: uint32, b: Buffer, good: bool, env: Env): (t: Session)
    requires b.Valid()
    ensures t.conn.innseq == s.conn.innseq
    ensures t.state == s.state || t.state == KL_CMD_INPUT
    ensures !good ==> t == s.(r := KL_TCP_ERR_CONN_CLOSED)
    ensures good && op != KL_CMD_OP && op != KL_FILE_OP ==> t == s
    ensures good && op == KL_CMD_OP ==> t == CmdPacketAsWritten(s, b, env)
  {
    if !good then s.(r := KL_TCP_ERR_CONN_CLOSED)
    else if op == KL_CMD_OP then CmdPacketAsWritten(s, b, env)
    else if op == KL_FILE_OP then FilePacket(s, env)
    else s
  }

  /** A packet in KL_CMD_INPUT, `good` telling whether its checksum held. */
  function InputPacket(s: Session, op: uint32, good: bool, env: Env): (t: Session)
    ensures t.conn == s.conn && t.state == s.state && t.launched == s.launched
    ensures op != KL_END_OP && op != KL_PACK_OP && op != KL_TIMEOUT_OP ==> t == s
    ensures (op == KL_END_OP || op == KL_PACK_OP || op == KL_TIMEOUT_OP) && !good ==> t == s.(r := KL_TCP_ERR_CONN_CLOSED)
    ensures op == KL_PACK_OP && good ==> t == s
    ensures op == KL_END_OP && good ==> t == InputEnd(s, env)
    ensures op == KL_TIMEOUT_OP && good ==>
      t == s.(killSent := s.killSent || HasFlag(s.conn.kltype, KL_TIMEOUTKILLCHILD), r := KL_TCP_ERR_CONN_CLOSED)
  {
    if op != KL_END_OP && op != KL_PACK_OP && op != KL_TIMEOUT_OP then s
    else if !good then s.(r := KL_TCP_ERR_CONN_CLOSED)
    else if op == KL_END_OP then InputEnd(s, env)
    else if op == KL_PACK_OP then s
    else s.(killSent := s.killSent || HasFlag(s.conn.kltype, KL_TIMEOUTKILLCHILD), r := KL_TCP_ERR_CONN_CLOSED)
  }

  /** The END packet while the command runs. */
  function InputEnd(s: Session, env: Env): (t: Session)
    ensures t.exitLoop && t.kp == CloseWrite(s.kp) && t.state == s.state && t.launched == s.launched
    ensures t.r == 0 <==> ChecksumTaken(s.conn, env.readerChecksum, env.replySent)
    ensures t.r == 0 ==> t.replies == s.replies + [ReplyChecksum(env.readerChecksum)]
    ensures t.r != 0 ==> t.r == KL_TCP_ERR_CONN_CORRUPT && t.replies == s.replies
  {
    var sent := ChecksumTaken(s.conn, env.readerChecksum, env.replySent);
    s.(replies := if sent then s.replies + [ReplyChecksum(env.readerChecksum)] else s.replies,
       r := if sent then 0 else KL_TCP_ERR_CONN_CORRUPT, kp := CloseWrite(s.kp), exitLoop := true)
  }

  /** The head checks of one pass: a head that does not deserialize or a
      QUIT closes; outside KL_INITIALIZE the sequence number must match,
      in KL_INITIALIZE it is adopted and the session moves on to
      KL_AUTHORIZE (the switch falls through into that case). */
  function Admit(s: Session, buf: Buffer): (r: Option<(Session, CommHead, Buffer)>)
    requires buf.Valid()
    ensures r.Some? ==> r.value.2.Valid()
    ensures r.Some? <==> DeserializeCommHead(buf, ZeroHead).0 == 0 && DeserializeCommHead(buf, ZeroHead).1.cmdtype != KL_QUIT_OP
                         && (s.state == KL_INITIALIZE || IsSeqEqual(s.conn, DeserializeCommHead(buf, ZeroHead).1.innseq))
    ensures r.Some? ==> r.value.1 == DeserializeCommHead(buf, ZeroHead).1 && r.value.2 == DeserializeCommHead(buf, ZeroHead).2
    ensures r.Some? && s.state == KL_INITIALIZE ==>
      r.value.0 == s.(conn := s.conn.(innseq := r.value.1.innseq), state := KL_AUTHORIZE)
    ensures r.Some? && s.state != KL_INITIALIZE ==> r.value.0 == s
  {
    var (rc, h, b) := DeserializeCommHead(buf, ZeroHead);
    if rc != 0 || h.cmdtype == KL_QUIT_OP then None
    else if s.state != KL_INITIALIZE && !IsSeqEqual(s.conn, h.innseq) then None
    else if s.state == KL_INITIALIZE then Some((s.(conn := s.conn.(innseq := h.innseq), state := KL_AUTHORIZE), h, b))
    else Some((s, h, b))
  }

  /** One pass of the loop: the reader having ended stops the loop with
      KL_TCP_ERR_PTHREAD_CHILD_QUIT; a read timeout changes nothing; any
      other failed read, and any packet refused by the head checks, closes. */
  function Step(s: Session, a: Arrival): (t: Session)
    requires a.buf.Valid()
    ensures s.readerStarted && a.env.childEnded ==> t == s.(r := KL_TCP_ERR_PTHREAD_CHILD_QUIT, exitLoop := true)
    ensures !(s.readerStarted && a.env.childEnded) && a.len == KL_TCP_ERR_SOCKET_READ_TIMEOUT ==> t == s
    ensures !(s.readerStarted && a.env.childEnded) && a.len <= 0 && a.len != KL_TCP_ERR_SOCKET_READ_TIMEOUT ==>
      t == s.(r := KL_TCP_ERR_CONN_CLOSED)
    ensures !(s.readerStarted && a.env.childEnded) && a.len > 0 && Admit(s, a.buf).None? ==> t == s.(r := KL_TCP_ERR_CONN_CLOSED)
    ensures s.state != KL_INITIALIZE ==> t.conn.innseq == s.conn.innseq
    ensures !(s.readerStarted && a.env.childEnded) && a.len > 0 && Admit(s, a.buf).Some? ==>
      t == Dispatch(Admit(s, a.buf).value.0, Admit(s, a.buf).value.1.cmdtype, Admit(s, a.buf).value.2, a.rChecksum, a.env)
  {
    if s.readerStarted && a.env.childEnded then s.(r := KL_TCP_ERR_PTHREAD_CHILD_QUIT, exitLoop := true)
    else if a.len <= 0 then
      if a.len == KL_TCP_ERR_SOCKET_READ_TIMEOUT then s else s.(r := KL_TCP_ERR_CONN_CLOSED)
    else match Admit(s, a.buf)
      case None => s.(r := KL_TCP_ERR_CONN_CLOSED)
      case Some((s1, h, b)) => Dispatch(s1, h.cmdtype, b, a.rChecksum, a.env)
  }

  predicate ValidArrivals(arrivals: seq<Arrival>) {
    forall i :: 0 <= i < |arrivals| ==> arrivals[i].buf.Valid()
  }

  /** The loop `while (!r && !ExitLoop)`, over the passes given (it is still
      reading when they run out). */
  function Serve(s: Session, arrivals: seq<Arrival>): (t: Session)
    requires ValidArrivals(arrivals)
    ensures s.r != 0 || s.exitLoop ==> t == s
    decreases |arrivals|
  {
    if s.r != 0 || s.exitLoop || |arrivals| == 0 then s
    else Serve(Step(s, arrivals[0]), arrivals[1..])
  }

  // ---------------------------------------------------------------------------
  // After the loop

  /** The connection as run() leaves it: the socket closed, the command
      handle closed without waiting, whether the reader was told the
      connection failed (KL_CERROR), and whether the session waited for the
      reader to finish. */
  datatype Ended = Ended(conn: ConnBase, kp: Option<PCmd.Popen>, readerMarked: bool, readerJoined: bool)

  /** SetAconnState(KL_CERROR) when `r` is set (it reaches the reader only
      in KL_CMD_INPUT, and closes the child's stdin); ClearTmpEnv (close
      the child's stdin, wait for the reader unless it is the reader that
      ended the loop); then kp_file_->Close(true) and CloseSockfd. */
  function Finish(s: Session): (e: Ended)
    ensures e.conn.sockfd < 0 && e.conn == s.conn.(sockfd := e.conn.sockfd)
    ensures e.kp.Some? == s.kp.Some? && (e.kp.Some? ==> !e.kp.value.readOpen && !e.kp.value.writeOpen)
    ensures e.readerMarked <==> s.r != 0 && s.readerStarted && s.state == KL_CMD_INPUT
    ensures e.readerJoined <==> s.readerStarted && s.r != KL_TCP_ERR_PTHREAD_CHILD_QUIT
  {
    var marked := s.r != 0 && s.readerStarted && s.state == KL_CMD_INPUT;
    var kp1 := if marked then CloseWrite(s.kp) else s.kp;
    var kp2 := if s.readerStarted then CloseWrite(kp1) else kp1;
    var kp3 := match kp2 case None => None case Some(p) => Some(PCmd.Close(p, true, PCmd.Reaped(0)).popen);
    Ended(CloseSockfd(s.conn), kp3, marked, s.readerStarted && s.r != KL_TCP_ERR_PTHREAD_CHILD_QUIT)
  }

  // ---------------------------------------------------------------------------
  // Properties

  /** The shape a session keeps between passes: it is in one of the three
      server states it can reach; nothing has happened before the first
      packet is admitted; the reader runs exactly in KL_CMD_INPUT; every
      command started is a system() one except, once the reader runs, the
      last, which is the popen whose output it streams; and a kill is only
      ever sent to that child. */
  predicate Consistent(s: Session) {
    (s.state == KL_INITIALIZE || s.state == KL_AUTHORIZE || s.state == KL_CMD_INPUT) &&
    (s.state == KL_INITIALIZE ==> s.launched == [] && s.replies == [] && s.kp.None?) &&
    (s.readerStarted <==> s.state == KL_CMD_INPUT) &&
    (if s.readerStarted
     then s.kp.Some? && |s.launched| > 0 && s.launched[|s.launched| - 1].Popened? && AllSystemed(s.launched[..|s.launched| - 1])
     else AllSystemed(s.launched)) &&
    (s.killSent ==> s.readerStarted)
  }

  predicate AllSystemed(ls: seq<Launch>) {
    forall i :: 0 <= i < |ls| ==> ls[i].Systemed?
  }

  lemma NewSessionConsistent(conn: ConnBase)
    ensures Consistent(NewSession(conn))
  {
  }

  lemma HandleConsistent(s: Session, q: CmdReqStruct, mode: string, env: Env)
    requires Consistent(s) && s.state == KL_AUTHORIZE && q.Valid()
    ensures Consistent(CommandHandleWith(s, q, mode, env).1)
  {
    var (rc, s1) := CommandHandleWith(s, q, mode, env);
    if q.openType == 0 && rc == 0 {
      assert s1.launched[..|s1.launched| - 1] == s.launched;
    } else if q.openType != 0 {
      assert AllSystemed(s1.launched) by {
        forall i | 0 <= i < |s1.launched| ensures s1.launched[i].Systemed? {
          if i < |s.launched| { assert s1.launched[i] == s.launched[i]; }
        }
      }
    }
  }

  lemma AnswerConsistent(s: Session, rc: int32, openType: uint32, env: Env)
    requires Consistent(s) && s.state != KL_INITIALIZE
    ensures Consistent(Answer(s, rc, openType, env))
  {
  }

  lemma CmdPacketConsistent(s: Session, b: Buffer, env: Env)
    requires Consistent(s) && s.state == KL_AUTHORIZE && b.Valid()
    ensures Consistent(CmdPacketAsWritten(s, b, env))
  {
    var q := DeserializeCmdReqBody(b, StackCmdReq(env), env.allocOk).1;
    HandleConsistent(s, q, ModeTextAsWritten(q.cmdMode.Content()), env);
    var (rc, s1) := CommandHandleAsWritten(s, q, env);
    AnswerConsistent(s1, rc, q.openType, env);
  }

  /** The corrected command branch keeps the shape too. */
  lemma CorrectedCmdPacketConsistent(s: Session, b: Buffer, env: Env)
    requires Consistent(s) && s.state == KL_AUTHORIZE && b.Valid()
    ensures Consistent(CmdPacket(s, b, env))
  {
    var (drc, q, _) := DeserializeCmdReqBody(b, StackCmdReq(env), env.allocOk);
    if drc == 0 {
      HandleConsistent(s, q, ModeText(q.cmdMode.Content()), env);
      var (rc, s1) := CommandHandle(s, q, env);
      AnswerConsistent(s1, rc, q.openType, env);
    } else {
      AnswerConsistent(s, KL_TCP_ERR_CONN_CLOSED as int32, 0, env);
    }
  }

  lemma AuthorizeConsistent(s: Session, op: uint32, b: Buffer, good: bool, env: Env)
    requires Consistent(s) && s.state == KL_AUTHORIZE && b.Valid()
    ensures Consistent(AuthorizePacket(s, op, b, good, env))
  {
    if good && op == KL_CMD_OP {
      CmdPacketConsistent(s, b, env);
    }
  }

  lemma InputConsistent(s: Session, op: uint32, good: bool, env: Env)
    requires Consistent(s) && s.state == KL_CMD_INPUT
    ensures Consistent(InputPacket(s, op, good, env))
  {
  }

  lemma DispatchConsistent(s: Session, op: uint32, b: Buffer, rChecksum: uint32, env: Env)
    requires Consistent(s) && s.state != KL_INITIALIZE && b.Valid()
    ensures Consistent(Dispatch(s, op, b, rChecksum, env))
  {
    if s.state == KL_AUTHORIZE {
      AuthorizeConsistent(s, op, b, ChecksumCompareResult(s.conn, b, 0, rChecksum), env);
    } else {
      InputConsistent(s, op, ChecksumCompareResult(s.conn, b, 0, rChecksum), env);
    }
  }

  lemma AdmitConsistent(s: Session, buf: Buffer)
    requires Consistent(s) && buf.Valid() && Admit(s, buf).Some?
    ensures Consistent(Admit(s, buf).value.0) && Admit(s, buf).value.0.state != KL_INITIALIZE
    ensures StateOrdinal(s.state) <= StateOrdinal(Admit(s, buf).value.0.state)
  {
  }

  /** Every pass keeps the session's shape and moves its state only
      forward. */
  lemma StepConsistent(s: Session, a: Arrival)
    requires Consistent(s) && a.buf.Valid()
    ensures Consistent(Step(s, a))
    ensures StateOrdinal(s.state) <= StateOrdinal(Step(s, a).state)
  {
    if !(s.readerStarted && a.env.childEnded) && a.len > 0 && Admit(s, a.buf).Some? {
      var (s1, h, b) := Admit(s, a.buf).value;
      AdmitConsistent(s, a.buf);
      DispatchConsistent(s1, h.cmdtype, b, a.rChecksum, a.env);
    } else {
      NoDispatchConsistent(s, a);
    }
  }

  lemma NoDispatchConsistent(s: Session, a: Arrival)
    requires Consistent(s) && a.buf.Valid()
    requires (s.readerStarted && a.env.childEnded) || a.len <= 0 || Admit(s, a.buf).None?
    ensures Consistent(Step(s, a)) && Step(s, a).state == s.state
  {
  }

  /** Over a whole connection the shape is kept and the state never goes
      back. */
  lemma {:induction false} ServeConsistent(s: Session, arrivals: seq<Arrival>)
    requires Consistent(s) && ValidArrivals(arrivals)
    ensures Consistent(Serve(s, arrivals))
    ensures StateOrdinal(s.state) <= StateOrdinal(Serve(s, arrivals).state)
    decreases |arrivals|
  {
    if !(s.r != 0 || s.exitLoop || |arrivals| == 0) {
      StepConsistent(s, arrivals[0]);
      ServeConsistent(Step(s, arrivals[0]), arrivals[1..]);
    }
  }

  /** After the first admitted packet the sequence number never changes. */
  lemma {:induction false} ServeKeepsSequence(s: Session, arrivals: seq<Arrival>)
    requires Consistent(s) && s.state != KL_INITIALIZE && ValidArrivals(arrivals)
    ensures Serve(s, arrivals).conn.innseq == s.conn.innseq
    decreases |arrivals|
  {
    if !(s.r != 0 || s.exitLoop || |arrivals| == 0) {
      StepConsistent(s, arrivals[0]);
      ServeKeepsSequence(Step(s, arrivals[0]), arrivals[1..]);
    }
  }

  /** After the first admitted packet, a packet carrying any other
      sequence number closes the connection, whatever its type. */
  lemma ForeignSequenceCloses(s: Session, a: Arrival)
    requires Consistent(s) && s.state != KL_INITIALIZE && a.buf.Valid()
    requires !(s.readerStarted && a.env.childEnded) && a.len > 0
    requires DeserializeCommHead(a.buf, ZeroHead).0 == 0
    requires !IsSeqEqual(s.conn, DeserializeCommHead(a.buf, ZeroHead).1.innseq)
    ensures Step(s, a) == s.(r := KL_TCP_ERR_CONN_CLOSED)
  {
  }

  /** A QUIT packet closes the connection in every state. */
  lemma QuitCloses(s: Session, a: Arrival)
    requires a.buf.Valid() && !(s.readerStarted && a.env.childEnded) && a.len > 0
    requires DeserializeCommHead(a.buf, ZeroHead).0 == 0 && DeserializeCommHead(a.buf, ZeroHead).1.cmdtype == KL_QUIT_OP
    ensures Step(s, a) == s.(r := KL_TCP_ERR_CONN_CLOSED)
  {
  }

  /** fork, pipes and fdopen succeed and the parent does not have to kill
      the child for failing to exec. */
  predicate SpawnSucceeds(sys: PCmd.Spawn, w: PCmd.Watch) {
    sys.pipesOk && sys.pid > 0 && sys.readFdopenOk && sys.writeFdopenOk &&
    !PCmd.WaitChildToExec(w.curBin, w.myPid, w.beginMs, w.samples, w.killOk)
  }

  lemma ReadWriteOpens(cmd: string, sys: PCmd.Spawn, w: PCmd.Watch)
    requires SpawnSucceeds(sys, w)
    ensures PCmd.OpenCmd(PCmd.NewPopen(0), cmd, "rw", true, sys, w).0
  {
    PCmd.ReadWriteModeAccepted();
  }

  /** The bytes "rw" read as text. */
  lemma ReadWriteText()
    ensures AsText(KlTool.MODE_RW) == "rw"
  {
    assert AsText(KlTool.MODE_RW)[0] == 'r' && AsText(KlTool.MODE_RW)[1] == 'w';
  }

  /** A command request in mode "rw" with open type 0 starts the command
      through popen and moves the session into KL_CMD_INPUT. */
  lemma ReadWriteCommandLaunches(s: Session, b: Buffer, env: Env)
    requires s.state == KL_AUTHORIZE && s.r == 0 && b.Valid() && SpawnSucceeds(env.sys, env.watch)
    requires var (drc, q, _) := DeserializeCmdReqBody(b, StackCmdReq(env), env.allocOk);
      drc == 0 && q.openType == 0 && q.cmdMode.Content() == KlTool.MODE_RW
    ensures var q := DeserializeCmdReqBody(b, StackCmdReq(env), env.allocOk).1;
      var t := CmdPacketAsWritten(s, b, env);
      t.r == 0 && t.state == KL_CMD_INPUT && t.readerStarted && t.replies == s.replies &&
      t.launched == s.launched + [Popened(AsText(UpToNul(q.cmdReq.Content())), "rw")]
  {
    var q := DeserializeCmdReqBody(b, StackCmdReq(env), env.allocOk).1;
    ReadWriteText();
    ReadWriteOpens(AsText(UpToNul(q.cmdReq.Content())), env.sys, env.watch);
  }

  /** End to end: the frame kl_tool sends for a command, read by a fresh
      session on a connection with the same checksum setting, starts that
      command in mode "rw" and leaves the session waiting for the
      command's input under the client's sequence number. */
  lemma {:induction false} ClientCommandLaunches(conn: ConnBase, c: ConnBase, cmd: seq<byte>, rBuf: Buffer, rChecksum: uint32, env: Env)
    requires ReadyToReceive(rBuf)
    requires HasFlag(c.kltype, KL_NCHECKSUM) == HasFlag(conn.kltype, KL_NCHECKSUM)
    requires |cmd| + 4 * HEADER_LEN <= BUFSIZE
    requires env.allocOk && SpawnSucceeds(env.sys, env.watch)
    ensures var f := FrameOf(c, InitCommHead(KL_CMD_OP, c.innseq), KlTool.CommandBody(cmd, KlTool.MODE_RW, 0));
      var (n, cs, b) := ReadMsg(rBuf, rChecksum, PollData(f[..4]), PollData(f[4..]));
      b.Valid() &&
      var t := Step(NewSession(conn), Arrival(n, cs, b, env));
      t.r == 0 && t.state == KL_CMD_INPUT && t.conn.innseq == c.innseq &&
      t.launched == [Popened(AsText(UpToNul(cmd)), "rw")]
  {
    var f := FrameOf(c, InitCommHead(KL_CMD_OP, c.innseq), KlTool.CommandBody(cmd, KlTool.MODE_RW, 0));
    var (n, cs, b) := ReadMsg(rBuf, rChecksum, PollData(f[..4]), PollData(f[4..]));
    KlTool.CommandRoundTrip(c, conn, cmd, rBuf, rChecksum, StackCmdReq(env));
    FreshCommandLaunches(conn, c.innseq, UpToNul(cmd), n, cs, b, env);
    KlTool.UpToNulWithoutNul(UpToNul(cmd));
  }

  /** A fresh session once the first packet, carrying `seqNo`, is admitted. */
  function Authorized(conn: ConnBase, seqNo: uint32): (s: Session)
    ensures s.state == KL_AUTHORIZE && s.r == 0 && s.launched == [] && s.conn.innseq == seqNo
  {
    NewSession(conn).(conn := conn.(innseq := seqNo), state := KL_AUTHORIZE)
  }

  /** A fresh session hands a first command packet with a good checksum to
      the command branch under the packet's sequence number. */
  lemma FreshCommandStep(conn: ConnBase, seqNo: uint32, n: int, cs: uint32, b: Buffer, env: Env)
    requires n > 0 && b.Valid()
    requires var (rc, h, b') := DeserializeCommHead(b, ZeroHead);
      rc == 0 && h.cmdtype == KL_CMD_OP && h.innseq == seqNo && ChecksumCompareResult(conn.(innseq := seqNo), b', 0, cs)
    ensures Step(NewSession(conn), Arrival(n, cs, b, env)) == CmdPacketAsWritten(Authorized(conn, seqNo), DeserializeCommHead(b, ZeroHead).2, env)
  {
  }

  /** A fresh session reading a packet that holds a command request with
      open type 0 and mode "rw" under a good checksum. */
  lemma FreshCommandLaunches(conn: ConnBase, seqNo: uint32, cmd: seq<byte>, n: int, cs: uint32, b: Buffer, env: Env)
    requires n > 0 && b.Valid() && SpawnSucceeds(env.sys, env.watch)
    requires var (rc, h, b') := DeserializeCommHead(b, ZeroHead);
      rc == 0 && h.cmdtype == KL_CMD_OP && h.innseq == seqNo && ChecksumCompareResult(conn.(innseq := seqNo), b', 0, cs) &&
      var (rc2, q, _) := DeserializeCmdReqBody(b', StackCmdReq(env), env.allocOk);
      rc2 == 0 && q.View() == CmdReq(0, cmd, 0, KlTool.MODE_RW)
    ensures var t := Step(NewSession(conn), Arrival(n, cs, b, env));
      t.r == 0 && t.state == KL_CMD_INPUT && t.conn.innseq == seqNo &&
      t.launched == [Popened(AsText(UpToNul(cmd)), "rw")]
  {
    FreshCommandStep(conn, seqNo, n, cs, b, env);
    ReadWriteCommandLaunches(Authorized(conn, seqNo), DeserializeCommHead(b, ZeroHead).2, env);
  }

  /** Finding, as written: with an empty mode the session asks OpenCmd for
      "rwc", which it refuses, so a popen request without a mode never runs
      and answers KL_TCP_ERR_INTERNAL_ERROR. */
  lemma EmptyModeNeverRuns(s: Session, q: CmdReqStruct, env: Env)
    requires q.Valid() && q.openType == 0 && q.cmdMode.Content() == []
    ensures CommandHandleAsWritten(s, q, env).0 == KL_TCP_ERR_INTERNAL_ERROR
    ensures CommandHandleAsWritten(s, q, env).1.launched == s.launched
    ensures CommandHandleAsWritten(s, q, env).1.state == s.state
  {
    PCmd.UnknownLetterRejected();
  }

  /** Finding, corrected: with the "rw" default the same request runs its
      command through popen when the system lets it. */
  lemma EmptyModeRunsReadWrite(s: Session, q: CmdReqStruct, env: Env)
    requires q.Valid() && q.openType == 0 && q.cmdMode.Content() == [] && SpawnSucceeds(env.sys, env.watch)
    ensures CommandHandle(s, q, env).0 == 0
    ensures CommandHandle(s, q, env).1.launched == s.launched + [Popened(AsText(UpToNul(q.cmdReq.Content())), "rw")]
    ensures CommandHandle(s, q, env).1.state == KL_CMD_INPUT
  {
    ReadWriteOpens(AsText(UpToNul(q.cmdReq.Content())), env.sys, env.watch);
  }

  /** A command body cut short after the command text: rate limit and
      command only. */
  predicate Truncated(b: Buffer, rate: uint32, cmd: seq<byte>) {
    b.Valid() && |cmd| < TWO_32 && b.Content() == EncodeU32(rate) + EncodeBytes(cmd)
  }

  lemma TruncatedFails(b: Buffer, rate: uint32, cmd: seq<byte>, env: Env)
    requires Truncated(b, rate, cmd) && env.allocOk
    ensures var (drc, q, _) := DeserializeCmdReqBody(b, StackCmdReq(env), env.allocOk);
      drc != 0 && q.Valid() && q.ratelimit == rate && q.cmdReq.Content() == cmd && q.openType == env.stackOpen
  {
    var q := StackCmdReq(env);
    U32FieldRoundTrip(b, rate, EncodeBytes(cmd), q.ratelimit);
    var (r1, v1, i1) := DeserializeU32(b, q.ratelimit);
    assert EncodeBytes(cmd) == EncodeBytes(cmd) + [];
    BufferFieldRoundTrip(i1, cmd, [], q.cmdReq);
  }

  /** Finding, as written: a command body missing its open type and mode
      fails to deserialize, yet the failure is overwritten and the command
      still runs; with a non-zero open type left on the stack it runs
      through system(). */
  lemma TruncatedCommandStillRuns(s: Session, b: Buffer, rate: uint32, cmd: seq<byte>, env: Env)
    requires Truncated(b, rate, cmd) && env.allocOk && env.stackOpen != 0
    ensures DeserializeCmdReqBody(b, StackCmdReq(env), env.allocOk).0 != 0
    ensures CmdPacketAsWritten(s, b, env).launched == s.launched + [Systemed(AsText(UpToNul(cmd)))]
    ensures CmdPacketAsWritten(s, b, env).conn.ratelimit == rate
  {
    TruncatedFails(b, rate, cmd, env);
  }

  /** Finding, corrected: the same body closes the connection and runs
      nothing. */
  lemma TruncatedCommandRefused(s: Session, b: Buffer, rate: uint32, cmd: seq<byte>, env: Env)
    requires Truncated(b, rate, cmd) && env.allocOk
    ensures CmdPacket(s, b, env).r == KL_TCP_ERR_CONN_CLOSED
    ensures CmdPacket(s, b, env).launched == s.launched
  {
    TruncatedFails(b, rate, cmd, env);
  }

  /** At the end of a connection the socket is closed, and if a command's
      output was being streamed, that command was the last one started and
      both of its pipes are closed. */
  lemma ConnectionCleansUp(conn: ConnBase, arrivals: seq<Arrival>)
    requires ValidArrivals(arrivals)
    ensures var t := Serve(NewSession(conn), arrivals);
      var e := Finish(t);
      e.conn.sockfd < 0 &&
      (t.readerStarted ==> |t.launched| > 0 && t.launched[|t.launched| - 1].Popened? &&
                           e.kp.Some? && !e.kp.value.readOpen && !e.kp.value.writeOpen)
  {
    NewSessionConsistent(conn);
    ServeConsistent(NewSession(conn), arrivals);
  }
}
