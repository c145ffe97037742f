/** The server's command-output thread (AsyncIoServer::KReadCommandOutput):
    it forwards what the command writes to its stdout as PACK packets,
    folds each packet's hash into the shared running checksum, and at the
    end sends that checksum and an END reply with the result code.

    The thread is driven by data: the outcome of each PollReadCommand (with
    the connection state the loop finds at its top), what CheckPidExit
    reports, and how much of each frame the socket takes. */
module CommandReader {
  import opened Bytes
  import opened Buffers
  import opened Protocol
  import opened Murmur
  import opened TcpComm
  import opened Framing
  import opened KlTool
  import KlToolReceive

  /** What CheckPidExit reports: whether the child is gone, and the value it
      leaves in the return-code variable passed to it. */
  datatype PidCheck = PidCheck(exited: bool, rc: int32)

  /** Bytes one read from the command's stdout returns: at least one, at most BUFSIZE. */
  type OutBytes = b: seq<byte> | 0 < |b| <= BUFSIZE witness [0]

  /** One pass of the read loop as the thread sees it: the session thread has
      already marked the connection (the loop leaves at its top), the poll
      or read failed (-1), the command closed its stdout (-2), nothing
      arrived in KL_TIMEOUT (0; the child's state is then checked unless in
      daemon mode), or bytes arrived and `sent` is how much of their frame
      the socket took. */
  datatype ReaderPoll =
    | ConnAborted
    | OutputFailed
    | OutputEnded
    | OutputQuiet(check: PidCheck)
    | OutputChunk(chunk: OutBytes, sent: int)

  /** Where the read loop left off: the chunks sent whole, the running
      checksum, `ret`, whether the child was already seen to exit, whether
      the connection is still KL_CNOMRAL, and whether the loop has ended
      (it is still polling when the passes given run out). */
  datatype LoopEnd = LoopEnd(chunks: seq<seq<byte>>, checksum: uint64, ret: int32, pidStatus: bool, normal: bool, done: bool)

  /** Whether the socket takes a chunk's whole PACK frame. */
  predicate ChunkTaken(c: ConnBase, chunk: seq<byte>, sent: int) {
    sent == |FrameOf(c, InitCommHead(KL_PACK_OP, c.innseq), chunk)|
  }

  /** One pass's send, as the thread does it (SendChunk on its packed read
      buffer): it succeeds exactly when the socket takes the whole frame,
      and the hash it folds in is the chunk's body checksum. */
  lemma ChunkStep(c: ConnBase, chunk: OutBytes, sent: int)
    ensures var (rc, hash, o) := SendChunk(c, PackBuffer(c), InitCommHead(KL_PACK_OP, c.innseq), chunk, sent);
      (rc == 0 <==> ChunkTaken(c, chunk, sent)) && hash == BodyChecksum(c, chunk) &&
      o.Content() == FrameOf(c, InitCommHead(KL_PACK_OP, c.innseq), chunk)
  {
  }

  /** The read loop. Each chunk is hashed from packetHeadLen, folded into the
      checksum (XOR, or a sum with KL_NCHECKSUM), then sent; a failed send
      marks the connection KL_CERROR and ends with KL_TCP_ERR_CONN_CORRUPT.
      A non-zero value left by CheckPidExit ends the loop at its next top. */
  function ReadLoop(c: ConnBase, checksum: uint64, polls: seq<ReaderPoll>): (e: LoopEnd)
    ensures !e.normal ==> e.ret == 0 || e.ret == KL_TCP_ERR_CONN_CORRUPT
    ensures e.ret == KL_TCP_ERR_CONN_CORRUPT && !e.normal ==> e.done
    ensures !e.done ==> e.normal && e.ret == 0 && !e.pidStatus
    decreases |polls|
  {
    if |polls| == 0 then LoopEnd([], checksum, 0, false, true, false)
    else match polls[0]
      case ConnAborted => LoopEnd([], checksum, 0, false, false, true)
      case OutputFailed => LoopEnd([], checksum, KL_TCP_ERR_FILE_READ_FAILED, false, true, true)
      case OutputEnded => LoopEnd([], checksum, KL_TCP_ERR_FILE_READ_END, false, true, true)
      case OutputQuiet(check) =>
        if HasFlag(c.kltype, KL_DAEMON) then ReadLoop(c, checksum, polls[1..])
        else if check.exited then LoopEnd([], checksum, check.rc, true, true, true)
        else if check.rc != 0 then LoopEnd([], checksum, check.rc, false, true, true)
        else ReadLoop(c, checksum, polls[1..])
      case OutputChunk(chunk, sent) =>
        var sum := MsgChecksum(checksum, ChecksumTypeOf(c), BodyChecksum(c, chunk));
        if !ChunkTaken(c, chunk, sent) then LoopEnd([], sum, KL_TCP_ERR_CONN_CORRUPT, false, false, true)
        else
          var e := ReadLoop(c, sum, polls[1..]);
          e.(chunks := [chunk] + e.chunks)
  }

  /** While the connection stays normal, the running checksum is the fold of
      exactly the chunks sent, in order. */
  lemma {:induction false} LoopChecksum(c: ConnBase, checksum: uint64, polls: seq<ReaderPoll>)
    ensures var e := ReadLoop(c, checksum, polls);
      e.normal ==> e.checksum == Accumulate(checksum, ChecksumTypeOf(c), ChunkHashes(c, e.chunks))
    decreases |polls|
  {
    if |polls| > 0 {
      match polls[0]
      case OutputQuiet(check) =>
        LoopChecksum(c, checksum, polls[1..]);
      case OutputChunk(chunk, sent) =>
        var sum := MsgChecksum(checksum, ChecksumTypeOf(c), BodyChecksum(c, chunk));
        if ChunkTaken(c, chunk, sent) {
          LoopChecksum(c, sum, polls[1..]);
          var e := ReadLoop(c, sum, polls[1..]);
          assert ChunkHashes(c, [chunk] + e.chunks) == [BodyChecksum(c, chunk)] + ChunkHashes(c, e.chunks);
        }
      case _ =>
    }
  }

  /** The wait for the child after the loop: a child still running is left
      to the recycling thread (AddChildPid) as soon as `ret` is set or the
      connection is no longer normal; otherwise the thread sleeps and takes
      the value CheckPidExit left as `ret`. */
  datatype Waited = Waited(ret: int32, recycled: bool, done: bool)

  function WaitChild(ret: int32, normal: bool, waits: seq<PidCheck>): (w: Waited)
    ensures w.recycled ==> w.done
    ensures ret != 0 || !normal ==> w.ret == ret
    decreases |waits|
  {
    if |waits| == 0 then Waited(ret, false, false)
    else if waits[0].exited then Waited(ret, false, true)
    else if ret != 0 || !normal then Waited(ret, true, true)
    else WaitChild(waits[0].rc, normal, waits[1..])
  }

  /** What the thread put on the wire, in order. */
  datatype Sent = SentChunk(chunk: seq<byte>) | SentChecksum(value: uint64) | SentEnd(code: int32)

  /** The thread's run: what it sent whole, whether it leaves the connection
      normal, whether the child went to the recycling thread, and whether it
      has finished (bIsEnd_). */
  datatype ReaderRun = ReaderRun(sent: seq<Sent>, normal: bool, recycled: bool, finished: bool)

  function ChunkPackets(chunks: seq<seq<byte>>): (r: seq<Sent>)
    ensures |r| == |chunks| && forall i :: 0 <= i < |chunks| ==> r[i] == SentChunk(chunks[i])
  {
    if |chunks| == 0 then [] else [SentChunk(chunks[0])] + ChunkPackets(chunks[1..])
  }

  /** What the session and the thread share: the socket's checksum mode and
      sequence number, whether memory is available for the packets, and how
      much of the checksum and END frames the socket takes. */
  datatype Endgame = Endgame(allocOk: bool, checksumSent: int, endSent: int)

  /** The frame of an END reply carrying `code`. */
  function EndFrame(c: ConnBase, code: int32): seq<byte> {
    FrameOf(c, InitCommHead(KL_END_OP, c.innseq), ReplyBody(code, []))
  }

  /** The code an END reply carries for `ret`: end of output reads as success. */
  function Reported(ret: int32): (code: int32)
    ensures code == 0 <==> ret == 0 || ret == KL_TCP_ERR_FILE_READ_END
    ensures code != 0 ==> code == ret
  {
    if ret == KL_TCP_ERR_FILE_READ_END then 0 else ret
  }

  /** Whether a closing packet goes out whole: its archive could be
      allocated and the socket took all of its frame. */
  predicate FrameTaken(allocOk: bool, sent: int, frame: seq<byte>) {
    allocOk && sent == |frame|
  }

  /** With memory available, the thread's two closing sends
      (SendChecksumPacket and ReplyCommAnswer) succeed exactly when the
      socket takes their frames whole. */
  lemma ClosingSends(c: ConnBase, checksum: uint64, code: int32, g: Endgame)
    requires g.allocOk
    ensures SendChecksumPacket(c, KL_CHECKSUM_OP, checksum, g.allocOk, g.checksumSent).0 == 0
        <==> FrameTaken(g.allocOk, g.checksumSent, KlToolReceive.ChecksumFrame(c, checksum))
    ensures ReplyCommAnswer(c, code, KL_END_OP, [], g.allocOk, g.endSent).0 == 0
        <==> FrameTaken(g.allocOk, g.endSent, EndFrame(c, code))
  {
  }

  /** The order the thread keeps on the wire: chunks first, and END only as
      the last packet, right after the checksum. */
  predicate InOrder(sent: seq<Sent>) {
    (forall i :: 0 <= i < |sent| && sent[i].SentEnd? ==> i == |sent| - 1 && i > 0 && sent[i - 1].SentChecksum?)
    && (forall i, j :: 0 <= i < j < |sent| && sent[j].SentChunk? ==> sent[i].SentChunk?)
  }

  /** The closing packets a run can end with after its chunks. */
  predicate ClosingTail(t: seq<Sent>, checksum: uint64) {
    t == [] || t == [SentChecksum(checksum)] || (|t| == 2 && t[0] == SentChecksum(checksum) && t[1].SentEnd?)
  }

  lemma ChunksThenClosing(chunks: seq<seq<byte>>, t: seq<Sent>, checksum: uint64)
    requires ClosingTail(t, checksum)
    ensures InOrder(ChunkPackets(chunks) + t)
  {
    var s := ChunkPackets(chunks) + t;
    forall i, j | 0 <= i < j < |s| && s[j].SentChunk?
      ensures s[i].SentChunk?
    {
      assert j < |chunks|;
    }
  }

  /** What the thread does once the read loop has ended (or was skipped). */
  function Finish(c: ConnBase, e: LoopEnd, waits: seq<PidCheck>, g: Endgame): (r: ReaderRun)
    requires e.done
    ensures |e.chunks| <= |r.sent| && r.sent[..|e.chunks|] == ChunkPackets(e.chunks)
    ensures ClosingTail(r.sent[|e.chunks|..], e.checksum)
    ensures r.recycled ==> r.finished
  {
    var pre := ChunkPackets(e.chunks);
    var checksumOk := FrameTaken(g.allocOk, g.checksumSent, KlToolReceive.ChecksumFrame(c, e.checksum));
    var normal := e.normal && checksumOk;
    var ret: int32 := if e.normal && !checksumOk then KL_TCP_ERR_CONN_CORRUPT else e.ret;
    var mid := if normal then [SentChecksum(e.checksum)] else [];
    var w := if e.pidStatus then Waited(ret, false, true) else WaitChild(ret, normal, waits);
    var code := Reported(w.ret);
    var last := if w.done && w.ret != KL_TCP_ERR_CONN_CORRUPT && normal && FrameTaken(g.allocOk, g.endSent, EndFrame(c, code))
                then [SentEnd(code)] else [];
    assert (pre + mid + last)[|e.chunks|..] == mid + last;
    ReaderRun(pre + mid + last, normal, w.recycled, w.done)
  }

  /** KReadCommandOutput. A setup failure (non-blocking mode, the read
      buffer, its PACK head) leaves KL_TCP_ERR_INTERNAL_ERROR and skips the
      loop. After the loop, a normal connection gets the checksum packet (a
      failed send marks it KL_CERROR with KL_TCP_ERR_CONN_CORRUPT); then the
      child is waited for unless already seen to exit; finally, unless the
      result is KL_TCP_ERR_CONN_CORRUPT or the connection is marked, the END
      reply carries the result, with KL_TCP_ERR_FILE_READ_END reported as 0. */
  function ReadCommandOutput(c: ConnBase, setupOk: bool, polls: seq<ReaderPoll>, waits: seq<PidCheck>, g: Endgame): (r: ReaderRun)
    ensures InOrder(r.sent)
    ensures r.recycled ==> r.finished
  {
    var e := if setupOk then ReadLoop(c, 0, polls) else LoopEnd([], 0, KL_TCP_ERR_INTERNAL_ERROR, false, true, true);
    if !e.done then
      ChunksThenClosing(e.chunks, [], e.checksum);
      assert ChunkPackets(e.chunks) + [] == ChunkPackets(e.chunks);
      ReaderRun(ChunkPackets(e.chunks), e.normal, false, false)
    else
      var r := Finish(c, e, waits, g);
      assert r.sent == r.sent[..|e.chunks|] + r.sent[|e.chunks|..];
      ChunksThenClosing(e.chunks, r.sent[|e.chunks|..], e.checksum);
      r
  }

  /** The polls of chunks the socket takes whole. */
  function Delivered(c: ConnBase, chunks: seq<OutBytes>): (p: seq<ReaderPoll>)
    ensures |p| == |chunks|
    ensures forall i :: 0 <= i < |chunks| ==> p[i] == OutputChunk(chunks[i], |FrameOf(c, InitCommHead(KL_PACK_OP, c.innseq), chunks[i])|)
  {
    if |chunks| == 0 then []
    else [OutputChunk(chunks[0], |FrameOf(c, InitCommHead(KL_PACK_OP, c.innseq), chunks[0])|)] + Delivered(c, chunks[1..])
  }

  function AsChunks(chunks: seq<OutBytes>): (r: seq<seq<byte>>)
    ensures |r| == |chunks| && forall i :: 0 <= i < |chunks| ==> r[i] == chunks[i]
  {
    if |chunks| == 0 then [] else [chunks[0]] + AsChunks(chunks[1..])
  }

  /** Chunks the socket takes whole are all forwarded, each folded into the
      checksum, and the loop carries on with what follows them. */
  lemma {:induction false} DeliveredLoop(c: ConnBase, start: uint64, chunks: seq<OutBytes>, tail: seq<ReaderPoll>)
    ensures var e := ReadLoop(c, Accumulate(start, ChecksumTypeOf(c), ChunkHashes(c, AsChunks(chunks))), tail);
      ReadLoop(c, start, Delivered(c, chunks) + tail) == e.(chunks := AsChunks(chunks) + e.chunks)
    decreases |chunks|
  {
    if |chunks| > 0 {
      var sum := DeliveredStep(c, start, chunks, tail);
      DeliveredLoop(c, sum, chunks[1..], tail);
      var e := ReadLoop(c, Accumulate(sum, ChecksumTypeOf(c), ChunkHashes(c, AsChunks(chunks[1..]))), tail);
      var e1 := ReadLoop(c, sum, Delivered(c, chunks[1..]) + tail);
      ConsChunks(chunks, e.chunks);
      assert e1.(chunks := [chunks[0]] + e1.chunks) == e.(chunks := AsChunks(chunks) + e.chunks);
    } else {
      assert Delivered(c, chunks) + tail == tail;
      assert AsChunks(chunks) == [];
    }
  }

  lemma ConsChunks(chunks: seq<OutBytes>, more: seq<seq<byte>>)
    requires |chunks| > 0
    ensures [chunks[0]] + (AsChunks(chunks[1..]) + more) == AsChunks(chunks) + more
  {
  }

  /** One delivered chunk: sent, folded, and the loop goes on. */
  lemma DeliveredStep(c: ConnBase, start: uint64, chunks: seq<OutBytes>, tail: seq<ReaderPoll>) returns (sum: uint64)
    requires |chunks| > 0
    ensures sum == MsgChecksum(start, ChecksumTypeOf(c), BodyChecksum(c, chunks[0]))
    ensures Accumulate(start, ChecksumTypeOf(c), ChunkHashes(c, AsChunks(chunks)))
         == Accumulate(sum, ChecksumTypeOf(c), ChunkHashes(c, AsChunks(chunks[1..])))
    ensures var e1 := ReadLoop(c, sum, Delivered(c, chunks[1..]) + tail);
      ReadLoop(c, start, Delivered(c, chunks) + tail) == e1.(chunks := [chunks[0]] + e1.chunks)
  {
    var polls := Delivered(c, chunks) + tail;
    assert polls[1..] == Delivered(c, chunks[1..]) + tail;
    sum := ChunkPass(c, start, chunks[0], polls);
    assert ChunkHashes(c, AsChunks(chunks)) == [BodyChecksum(c, chunks[0])] + ChunkHashes(c, AsChunks(chunks[1..]));
  }

  /** A pass whose chunk the socket takes whole. */
  lemma ChunkPass(c: ConnBase, start: uint64, chunk: OutBytes, polls: seq<ReaderPoll>) returns (sum: uint64)
    requires |polls| > 0 && polls[0] == OutputChunk(chunk, |FrameOf(c, InitCommHead(KL_PACK_OP, c.innseq), chunk)|)
    ensures sum == MsgChecksum(start, ChecksumTypeOf(c), BodyChecksum(c, chunk))
    ensures var e1 := ReadLoop(c, sum, polls[1..]);
      ReadLoop(c, start, polls) == e1.(chunks := [chunk] + e1.chunks)
  {
    sum := MsgChecksum(start, ChecksumTypeOf(c), BodyChecksum(c, chunk));
    assert ChunkTaken(c, chunk, |FrameOf(c, InitCommHead(KL_PACK_OP, c.innseq), chunk)|);
  }

  /** A socket that takes both closing frames whole. */
  predicate Takes(c: ConnBase, checksum: uint64, code: int32, g: Endgame) {
    g.allocOk && g.checksumSent == |KlToolReceive.ChecksumFrame(c, checksum)| && g.endSent == |EndFrame(c, code)|
  }

  /** Whatever the run, the checksum packet follows exactly the chunks sent
      and carries the fold of their hashes, which is what a client that
      tallies the output it receives holds. */
  lemma ChecksumIsOutputChecksum(c: ConnBase, polls: seq<ReaderPoll>, waits: seq<PidCheck>, g: Endgame)
    ensures var r := ReadCommandOutput(c, true, polls, waits, g);
      var e := ReadLoop(c, 0, polls);
      |e.chunks| <= |r.sent| && r.sent[..|e.chunks|] == ChunkPackets(e.chunks) &&
      forall i :: |e.chunks| <= i < |r.sent| ==>
        (r.sent[i].SentChecksum? <==> i == |e.chunks|) &&
        (r.sent[i].SentChecksum? ==> r.sent[i].value == KlToolReceive.OutputChecksum(c, e.chunks))
  {
    LoopChecksum(c, 0, polls);
  }

  /** The read loop over delivered chunks and then one pass `last` that
      ends it without sending. */
  lemma LoopEndsAfter(c: ConnBase, chunks: seq<OutBytes>, last: ReaderPoll, rest: seq<ReaderPoll>)
    requires !last.OutputChunk?
    requires last.OutputQuiet? ==> !HasFlag(c.kltype, KL_DAEMON) && (last.check.exited || last.check.rc != 0)
    ensures var out := AsChunks(chunks);
      var e := ReadLoop(c, KlToolReceive.OutputChecksum(c, out), [last] + rest);
      ReadLoop(c, 0, Delivered(c, chunks) + [last] + rest) == e.(chunks := out)
  {
    var polls := Delivered(c, chunks) + [last] + rest;
    assert polls == Delivered(c, chunks) + ([last] + rest);
    DeliveredLoop(c, 0, chunks, [last] + rest);
    assert AsChunks(chunks) + [] == AsChunks(chunks);
  }

  lemma QuietExit(c: ConnBase, sum: uint64, rc: int32, rest: seq<ReaderPoll>)
    requires !HasFlag(c.kltype, KL_DAEMON)
    ensures ReadLoop(c, sum, [OutputQuiet(PidCheck(true, rc))] + rest) == LoopEnd([], sum, rc, true, true, true)
  {
  }

  /** The closing steps for a loop that ended normally with `ret`, the
      child not yet seen to exit, on a socket that takes both frames. */
  lemma ClosingAfter(c: ConnBase, e: LoopEnd, waits: seq<PidCheck>, g: Endgame, code: int32)
    requires e.done && e.normal && (e.ret != 0 || e.pidStatus) && e.ret != KL_TCP_ERR_CONN_CORRUPT && |waits| > 0
    requires code == Reported(e.ret)
    requires Takes(c, e.checksum, code, g)
    ensures var r := Finish(c, e, waits, g);
      r.sent == ChunkPackets(e.chunks) + [SentChecksum(e.checksum), SentEnd(code)] && r.normal && r.finished &&
      r.recycled == (!e.pidStatus && !waits[0].exited)
  {
  }

  /** When the command closes its output, the chunks, the checksum and an
      END reply carrying 0 go out, whether or not the child has exited by
      then and whatever its exit status: the status is only read while `ret`
      is still 0, and end of output has already set it. */
  lemma EofReportsSuccess(c: ConnBase, chunks: seq<OutBytes>, rest: seq<ReaderPoll>, waits: seq<PidCheck>, g: Endgame)
    requires |waits| > 0
    requires Takes(c, KlToolReceive.OutputChecksum(c, AsChunks(chunks)), 0, g)
    ensures var r := ReadCommandOutput(c, true, Delivered(c, chunks) + [OutputEnded] + rest, waits, g);
      r.sent == ChunkPackets(AsChunks(chunks)) + [SentChecksum(KlToolReceive.OutputChecksum(c, AsChunks(chunks))), SentEnd(0)] &&
      r.normal && r.finished && r.recycled == !waits[0].exited
  {
    LoopEndsAfter(c, chunks, OutputEnded, rest);
    var e := ReadLoop(c, 0, Delivered(c, chunks) + [OutputEnded] + rest);
    ClosingAfter(c, e, waits, g, 0);
  }

  /** Outside daemon mode, a quiet poll that finds the child gone ends the
      output there and the END reply carries the status CheckPidExit left
      (KL_TCP_ERR_FILE_READ_END aside, which reads as 0). */
  lemma ExitReportsStatus(c: ConnBase, chunks: seq<OutBytes>, rc: int32, rest: seq<ReaderPoll>, waits: seq<PidCheck>, g: Endgame)
    requires !HasFlag(c.kltype, KL_DAEMON) && rc != KL_TCP_ERR_CONN_CORRUPT && |waits| > 0
    requires Takes(c, KlToolReceive.OutputChecksum(c, AsChunks(chunks)), Reported(rc), g)
    ensures var r := ReadCommandOutput(c, true, Delivered(c, chunks) + [OutputQuiet(PidCheck(true, rc))] + rest, waits, g);
      r.sent == ChunkPackets(AsChunks(chunks)) + [SentChecksum(KlToolReceive.OutputChecksum(c, AsChunks(chunks))),
                                                  SentEnd(Reported(rc))] &&
      r.normal && r.finished && !r.recycled
  {
    var x := OutputQuiet(PidCheck(true, rc));
    LoopEndsAfter(c, chunks, x, rest);
    QuietExit(c, KlToolReceive.OutputChecksum(c, AsChunks(chunks)), rc, rest);
    var e := ReadLoop(c, 0, Delivered(c, chunks) + [x] + rest);
    ClosingAfter(c, e, waits, g, Reported(rc));
  }

  /** Once the session marks the connection, the thread sends nothing more:
      no checksum, no END; a child still running goes to the recycling thread. */
  lemma AbortStopsOutput(c: ConnBase, chunks: seq<OutBytes>, rest: seq<ReaderPoll>, waits: seq<PidCheck>, g: Endgame)
    requires |waits| > 0
    ensures var r := ReadCommandOutput(c, true, Delivered(c, chunks) + [ConnAborted] + rest, waits, g);
      r.sent == ChunkPackets(AsChunks(chunks)) && !r.normal && r.finished && r.recycled == !waits[0].exited
  {
    var polls := Delivered(c, chunks) + [ConnAborted] + rest;
    assert polls == Delivered(c, chunks) + ([ConnAborted] + rest);
    DeliveredLoop(c, 0, chunks, [ConnAborted] + rest);
  }

  /** A setup failure still sends a checksum (of nothing) and then reports
      KL_TCP_ERR_INTERNAL_ERROR. */
  lemma SetupFailureReported(c: ConnBase, polls: seq<ReaderPoll>, waits: seq<PidCheck>, g: Endgame)
    requires |waits| > 0 && Takes(c, 0, KL_TCP_ERR_INTERNAL_ERROR as int32, g)
    ensures ReadCommandOutput(c, false, polls, waits, g).sent == [SentChecksum(0), SentEnd(KL_TCP_ERR_INTERNAL_ERROR as int32)]
  {
  }
}
