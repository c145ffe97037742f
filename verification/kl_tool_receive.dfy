/** The receiving half of kl_tool: ReadSockMsgHandle with the checks every
    incoming packet passes (length, head, sequence number, checksum), the
    dispatch on its opcode (CheckInCommandChecksum, the two GetCommandResult
    overloads) and SockTimeoutHandle.

    A packet arrives as the result of KlReadMsg: the returned length, the
    checksum word and the buffer left readable after it. The clock reading
    is the number of milliseconds since the command was sent, stdout either
    takes a whole write or does not, and `allocOk` says whether the buffers
    the body is read into can grow. */
module KlToolReceive {
  import opened Bytes
  import opened Buffers
  import opened Protocol
  import opened Murmur
  import opened TcpComm
  import opened Framing
  import opened KlTool

  /** CheckCommandTimeout: strictly more than the command timeout has passed
      (both sides are int64). */
  predicate CommandTimedOut(c: ConnBase, elapsed: nat) {
    elapsed > c.timeout
  }

  /** SockTimeoutHandle: once the command is out, a poll timeout that finds
      the command late sends the TIMEOUT notice and quits; otherwise the
      client keeps waiting. */
  function SockTimeout(c: ConnBase, commandSent: bool, elapsed: nat): (r: Reaction)
    ensures r.Stop? <==> commandSent && elapsed > c.timeout
    ensures r.Stop? ==> r == TimeoutExit()
    ensures !r.Stop? ==> r == Retry
  {
    if commandSent && CommandTimedOut(c, elapsed) then TimeoutExit() else Retry
  }

  /** The value CheckInCommandChecksum reads from a checksum packet: strtoul
      of the text up to its first NUL, or 0 when anything but the end of the
      text follows the digits. */
  function ReceivedChecksum(text: seq<byte>): (v: nat)
    ensures v <= CStr.ULONG_MAX
  {
    var t := AsText(UpToNul(text));
    var (value, stop) := CStr.StrToUL(t);
    if stop == |t| then value else 0
  }

  /** The KlCommReq and KlCommResp a handler declares before reading a body
      into them: empty buffers from the default constructor. */
  function FreshCommReq(allocOk: bool): (q: CommReqStruct)
    ensures q.Valid() && q.commReq.Content() == []
  {
    CommReqStruct(NewBuffer(allocOk))
  }

  function FreshCommResp(allocOk: bool): (q: CommRespStruct)
    ensures q.Valid() && q.errinfo.Content() == []
  {
    CommRespStruct(0, NewBuffer(allocOk))
  }

  /** ReadSockMsgHandle for one packet. A read timeout retries; any other
      failed or empty read exits with -1 without a quit notice; a head that
      does not deserialize, a foreign sequence number or a checksum mismatch
      exits through ClientNotifyExit; otherwise the opcode decides. */
  function HandleSockMsg(c: ConnBase, checksum: uint64, elapsed: nat, len: int, rChecksum: uint32, buf: Buffer,
                         allocOk: bool, stdoutOk: bool): (r: Reaction)
    requires buf.Valid()
    ensures len <= 0 ==> r == (if len == KL_TCP_ERR_SOCKET_READ_TIMEOUT then Retry else Stop(-1, []))
    ensures len > 0 && DeserializeCommHead(buf, ZeroHead).0 != 0 ==> r == NotifyExit()
    ensures len > 0 && !IsSeqEqual(c, DeserializeCommHead(buf, ZeroHead).1.innseq) ==> r == NotifyExit()
    ensures len > 0 && !ChecksumCompareResult(c, DeserializeCommHead(buf, ZeroHead).2, 0, rChecksum) ==> r == NotifyExit()
    ensures r.Continue? ==>
      (len > 0 && DeserializeCommHead(buf, ZeroHead).0 == 0
       && IsSeqEqual(c, DeserializeCommHead(buf, ZeroHead).1.innseq)
       && ChecksumCompareResult(c, DeserializeCommHead(buf, ZeroHead).2, 0, rChecksum))
  {
    if len <= 0 then
      if len == KL_TCP_ERR_SOCKET_READ_TIMEOUT then Retry else Stop(-1, [])
    else
      var (rc, h, b) := DeserializeCommHead(buf, ZeroHead);
      if rc != 0 || !IsSeqEqual(c, h.innseq) || !ChecksumCompareResult(c, b, 0, rChecksum) then NotifyExit()
      else Dispatch(c, checksum, elapsed, h.cmdtype, b, allocOk, stdoutOk)
  }

  /** The switch on the opcode of an admitted packet. */
  function Dispatch(c: ConnBase, checksum: uint64, elapsed: nat, op: uint32, b: Buffer,
                    allocOk: bool, stdoutOk: bool): (r: Reaction)
    requires b.Valid()
    ensures op != KL_CHECKSUM_OP && op != KL_PACK_OP && op != KL_END_OP ==> r == Continue([], checksum)
    ensures op == KL_PACK_OP && elapsed > c.timeout ==> r == TimeoutExit()
    ensures op == KL_PACK_OP && elapsed <= c.timeout ==>
      r == (if stdoutOk then Continue(b.Content(), MsgChecksum(checksum, ChecksumTypeOf(c), ExpectedChecksum(c, b, 0)))
            else NotifyExit())
    ensures op == KL_CHECKSUM_OP && r.Continue? ==> r == Continue([], checksum)
    ensures op == KL_END_OP && r.Stop? && r.sent == [] ==> elapsed <= c.timeout
  {
    if op == KL_CHECKSUM_OP then
      var (rc, q, _) := DeserializeCommReqBody(b, FreshCommReq(allocOk), allocOk);
      if rc != 0 || ReceivedChecksum(q.commReq.Content()) != checksum then NotifyExit()
      else Continue([], checksum)
    else if op == KL_PACK_OP then
      if CommandTimedOut(c, elapsed) then TimeoutExit()
      else
        var (_, hash) := CalcSendChecksum(c, b, 0, 0);
        var sum := MsgChecksum(checksum, ChecksumTypeOf(c), hash);
        if !stdoutOk then NotifyExit() else Continue(b.Content(), sum)
    else if op == KL_END_OP then
      var (rc, q, _) := DeserializeRespCommBody(b, FreshCommResp(allocOk), allocOk);
      if rc != 0 then NotifyExit()
      else if CommandTimedOut(c, elapsed) then TimeoutExit()
      else Stop(q.errcode as int, [])
    else Continue([], checksum)
  }

  // ---------------------------------------------------------------------------
  // Packets from the server

  /** A frame arriving whole: KlReadMsg into the cleared receive buffer,
      then the handler. */
  function Receive(c: ConnBase, checksum: uint64, elapsed: nat, rBuf: Buffer, rChecksum: uint32, f: seq<byte>,
                   allocOk: bool, stdoutOk: bool): Reaction
    requires ReadyToReceive(rBuf) && |f| >= HEADER_LEN
  {
    var (n, cs, b) := ReadMsg(rBuf, rChecksum, PollData(f[..HEADER_LEN]), PollData(f[HEADER_LEN..]));
    HandleSockMsg(c, checksum, elapsed, n, cs, b, allocOk, stdoutOk)
  }

  /** The server and the client agree on the sequence number and on the checksum mode. */
  predicate Paired(s: ConnBase, c: ConnBase) {
    s.innseq == c.innseq && HasFlag(s.kltype, KL_NCHECKSUM) == HasFlag(c.kltype, KL_NCHECKSUM)
  }

  /** The buffer the handler dispatches on: what KlReadMsg left, past the head. */
  function Landed(s: ConnBase, h: CommHead, body: seq<byte>, rBuf: Buffer, rChecksum: uint32): (b: Buffer)
    requires ReadyToReceive(rBuf)
    ensures b.Valid()
  {
    var f := FrameOf(s, h, body);
    var (n, cs, b) := ReadMsg(rBuf, rChecksum, PollData(f[..HEADER_LEN]), PollData(f[HEADER_LEN..]));
    DeserializeCommHead(b, ZeroHead).2
  }

  /** A frame under the client's sequence number, in the client's checksum
      mode, passes every check and is dispatched on its opcode with exactly
      its body readable. */
  lemma Admitted(s: ConnBase, c: ConnBase, h: CommHead, body: seq<byte>, checksum: uint64, elapsed: nat,
                 rBuf: Buffer, rChecksum: uint32, allocOk: bool, stdoutOk: bool)
    requires ReadyToReceive(rBuf) && HasFlag(s.kltype, KL_NCHECKSUM) == HasFlag(c.kltype, KL_NCHECKSUM)
    requires |body| <= BUFSIZE + 4 && h.innseq == c.innseq
    ensures Landed(s, h, body, rBuf, rChecksum).Content() == body
    ensures Receive(c, checksum, elapsed, rBuf, rChecksum, FrameOf(s, h, body), allocOk, stdoutOk)
         == Dispatch(c, checksum, elapsed, h.cmdtype, Landed(s, h, body, rBuf, rChecksum), allocOk, stdoutOk)
  {
    FrameRoundTrip(s, c, h, body, rBuf, rChecksum);
  }

  /** A packet under another sequence number makes the client quit, whatever it carries. */
  lemma ForeignSequenceQuits(s: ConnBase, c: ConnBase, h: CommHead, body: seq<byte>, checksum: uint64, elapsed: nat,
                             rBuf: Buffer, rChecksum: uint32, allocOk: bool, stdoutOk: bool)
    requires ReadyToReceive(rBuf) && HasFlag(s.kltype, KL_NCHECKSUM) == HasFlag(c.kltype, KL_NCHECKSUM)
    requires |body| <= BUFSIZE + 4 && h.innseq != c.innseq
    ensures Receive(c, checksum, elapsed, rBuf, rChecksum, FrameOf(s, h, body), allocOk, stdoutOk) == NotifyExit()
  {
    FrameRoundTrip(s, c, h, body, rBuf, rChecksum);
  }

  /** An output chunk from the server reaches stdout whole and its hash is
      folded into the running checksum, unless the command is already late. */
  lemma PackReceived(s: ConnBase, c: ConnBase, chunk: seq<byte>, checksum: uint64, elapsed: nat,
                     rBuf: Buffer, rChecksum: uint32, allocOk: bool, stdoutOk: bool)
    requires ReadyToReceive(rBuf) && Paired(s, c) && |chunk| <= BUFSIZE
    ensures Receive(c, checksum, elapsed, rBuf, rChecksum, FrameOf(s, InitCommHead(KL_PACK_OP, s.innseq), chunk), allocOk, stdoutOk)
         == if elapsed > c.timeout then TimeoutExit()
            else if stdoutOk then Continue(chunk, MsgChecksum(checksum, ChecksumTypeOf(c), BodyChecksum(s, chunk)))
            else NotifyExit()
  {
    var h := InitCommHead(KL_PACK_OP, s.innseq);
    Admitted(s, c, h, chunk, checksum, elapsed, rBuf, rChecksum, allocOk, stdoutOk);
    var b := Landed(s, h, chunk, rBuf, rChecksum);
    ChecksumCompareSpec(c, b, 0, BodyChecksum(s, chunk));
  }

  /** The END reply ends the client with the server's return code, unless
      the command is already late. */
  lemma EndReceived(s: ConnBase, c: ConnBase, retcode: int32, checksum: uint64, elapsed: nat,
                    rBuf: Buffer, rChecksum: uint32, stdoutOk: bool)
    requires ReadyToReceive(rBuf) && Paired(s, c)
    ensures Receive(c, checksum, elapsed, rBuf, rChecksum, FrameOf(s, InitCommHead(KL_END_OP, s.innseq), ReplyBody(retcode, [])), true, stdoutOk)
         == if elapsed > c.timeout then TimeoutExit() else Stop(retcode as int, [])
  {
    var h := InitCommHead(KL_END_OP, s.innseq);
    var body := ReplyBody(retcode, []);
    assert |body| == 2 * HEADER_LEN;
    Admitted(s, c, h, body, checksum, elapsed, rBuf, rChecksum, true, stdoutOk);
    EndDispatched(c, checksum, elapsed, Landed(s, h, body, rBuf, rChecksum), retcode, stdoutOk);
  }

  lemma EndDispatched(c: ConnBase, checksum: uint64, elapsed: nat, b: Buffer, retcode: int32, stdoutOk: bool)
    requires b.Valid() && b.Content() == ReplyBody(retcode, [])
    ensures Dispatch(c, checksum, elapsed, KL_END_OP, b, true, stdoutOk)
         == if elapsed > c.timeout then TimeoutExit() else Stop(retcode as int, [])
  {
    RespReadBack(b, CommResp(retcode, []), FreshCommResp(true));
  }

  /** The checksum packet is accepted exactly when it carries the client's
      running checksum, and then changes nothing. */
  lemma ChecksumReceived(s: ConnBase, c: ConnBase, value: uint64, checksum: uint64, elapsed: nat,
                         rBuf: Buffer, rChecksum: uint32, stdoutOk: bool)
    requires ReadyToReceive(rBuf) && Paired(s, c)
    ensures Receive(c, checksum, elapsed, rBuf, rChecksum,
                    FrameOf(s, InitCommHead(KL_CHECKSUM_OP, s.innseq), EncodeCommReq(CommReq(ChecksumText(value)))), true, stdoutOk)
         == if value == checksum then Continue([], checksum) else NotifyExit()
  {
    var h := InitCommHead(KL_CHECKSUM_OP, s.innseq);
    var body := EncodeCommReq(CommReq(ChecksumText(value)));
    ChecksumTextShort(value);
    ModSmall(|ChecksumText(value)|);
    assert |body| == HEADER_LEN + |ChecksumText(value)|;
    Admitted(s, c, h, body, checksum, elapsed, rBuf, rChecksum, true, stdoutOk);
    ChecksumDispatched(c, checksum, elapsed, Landed(s, h, body, rBuf, rChecksum), value, stdoutOk);
  }

  lemma ChecksumDispatched(c: ConnBase, checksum: uint64, elapsed: nat, b: Buffer, value: uint64, stdoutOk: bool)
    requires b.Valid() && b.Content() == EncodeCommReq(CommReq(ChecksumText(value)))
    ensures Dispatch(c, checksum, elapsed, KL_CHECKSUM_OP, b, true, stdoutOk)
         == if value == checksum then Continue([], checksum) else NotifyExit()
  {
    ChecksumTextShort(value);
    ReqReadBack(b, CommReq(ChecksumText(value)), FreshCommReq(true));
    ChecksumTextReadBack(value);
  }

  /** The decimal text of a checksum reads back as the checksum. */
  lemma ChecksumTextReadBack(value: uint64)
    ensures ReceivedChecksum(ChecksumText(value)) == value
  {
    var text := ChecksumText(value);
    var d := CStr.NatToString(value);
    assert UpToNul(text) == text by {
      assert forall i :: 0 <= i < |text| ==> text[i] as int == d[i] as int;
      assert forall i :: 0 <= i < |text| ==> CStr.IsDigit(d[i]);
      assert 0 !in text;
      UpToNulWithoutNul(text);
    }
    assert d + "" == d;
    CStr.DigitsValueOfNatToString(value);
    CStr.StrToULOfDigits(d, "");
  }

  // ---------------------------------------------------------------------------
  // The end-of-command checksum

  /** The frame SendChecksumPacket(KL_CHECKSUM_OP, value) puts on the wire. */
  function ChecksumFrame(s: ConnBase, value: uint64): seq<byte> {
    FrameOf(s, InitCommHead(KL_CHECKSUM_OP, s.innseq), EncodeCommReq(CommReq(ChecksumText(value))))
  }

  /** The fold of the output chunks' hashes, from 0: what the server's
      reader thread sends when the command's output ends, and what a client
      that keeps its own tally of the output it received holds. */
  function OutputChecksum(c: ConnBase, output: seq<seq<byte>>): uint64 {
    Accumulate(0, ChecksumTypeOf(c), ChunkHashes(c, output))
  }

  /** The running checksum the client compares, as written: main hands one
      KFileStat to both the stdin thread and the socket handler, so the
      stdin chunks' hashes are folded in before the output chunks' hashes. */
  function SharedChecksum(c: ConnBase, input: seq<seq<byte>>, output: seq<seq<byte>>): uint64 {
    Accumulate(OutputChecksum(c, input), ChecksumTypeOf(c), ChunkHashes(c, output))
  }

  /** As written, in hash mode (the only mode the client runs in), the
      server's checksum is accepted exactly when the stdin chunks' hashes
      XOR to zero. */
  lemma SharedChecksumAcceptedIff(s: ConnBase, c: ConnBase, input: seq<seq<byte>>, output: seq<seq<byte>>,
                                  elapsed: nat, rBuf: Buffer, rChecksum: uint32, stdoutOk: bool)
    requires ReadyToReceive(rBuf) && Paired(s, c) && !HasFlag(c.kltype, KL_NCHECKSUM)
    ensures var r := Receive(c, SharedChecksum(c, input, output), elapsed, rBuf, rChecksum,
                             ChecksumFrame(s, OutputChecksum(s, output)), true, stdoutOk);
      (r.Continue? <==> XorAll(ChunkHashes(c, input)) == 0) && (!r.Continue? ==> r == NotifyExit())
  {
    SharedIsXor(s, c, input, output);
    ChecksumReceived(s, c, OutputChecksum(s, output), SharedChecksum(c, input, output), elapsed, rBuf, rChecksum, stdoutOk);
    XorCancelsOnlyZero(XorAll(ChunkHashes(c, input)), XorAll(ChunkHashes(c, output)));
  }

  /** In hash mode both values are plain XORs of hashes. */
  lemma SharedIsXor(s: ConnBase, c: ConnBase, input: seq<seq<byte>>, output: seq<seq<byte>>)
    requires Paired(s, c) && !HasFlag(c.kltype, KL_NCHECKSUM)
    ensures OutputChecksum(s, output) == XorAll(ChunkHashes(c, output))
    ensures SharedChecksum(c, input, output) == Xor64(XorAll(ChunkHashes(c, input)), XorAll(ChunkHashes(c, output)))
  {
    assert ChunkHashes(s, output) == ChunkHashes(c, output);
    AccumulateIsXorAll(ChunkHashes(c, input), 1);
    AccumulateIsXorAll(ChunkHashes(c, output), 1);
    AccumulateFrom(XorAll(ChunkHashes(c, input)), 1, ChunkHashes(c, output));
  }

  /** `a ^ b == b` only for `a == 0`. */
  lemma XorCancelsOnlyZero(a: nat, b: nat)
    ensures Xor(a, b) == b <==> a == 0
  {
    XorZero(b);
    if Xor(a, b) == b {
      XorAssoc(a, b, b);
      XorSelf(b);
      XorZero(a);
    }
  }

  /** The discrepancy on a concrete run: one byte typed on stdin, a command
      that prints nothing. The server reports 0, the client holds the byte's
      hash, which is never 0, and quits with -1. */
  lemma SharedChecksumRejectsOneByte(s: ConnBase, c: ConnBase, key: seq<byte>,
                                     elapsed: nat, rBuf: Buffer, rChecksum: uint32, stdoutOk: bool)
    requires ReadyToReceive(rBuf) && Paired(s, c) && !HasFlag(c.kltype, KL_NCHECKSUM) && |key| == 1
    ensures Receive(c, SharedChecksum(c, [key], []), elapsed, rBuf, rChecksum,
                    ChecksumFrame(s, OutputChecksum(s, [])), true, stdoutOk) == NotifyExit()
  {
    OneByteChunkHash(c, key);
    SharedChecksumAcceptedIff(s, c, [key], [], elapsed, rBuf, rChecksum, stdoutOk);
  }

  lemma OneByteChunkHash(c: ConnBase, key: seq<byte>)
    requires !HasFlag(c.kltype, KL_NCHECKSUM) && |key| == 1
    ensures XorAll(ChunkHashes(c, [key])) != 0
  {
    var hs := ChunkHashes(c, [key]);
    assert hs == [Hash(key)] by { assert key[..1] == key; }
    OneByteHashNonZero(key);
    assert XorAll(hs) == Xor64(0, Hash(key));
    XorZero(Hash(key));
  }

  /** Corrected: a client comparing against its own tally of the output
      accepts the server's checksum whatever was typed on stdin. */
  lemma OutputChecksumAccepted(s: ConnBase, c: ConnBase, output: seq<seq<byte>>,
                               elapsed: nat, rBuf: Buffer, rChecksum: uint32, stdoutOk: bool)
    requires ReadyToReceive(rBuf) && Paired(s, c)
    ensures Receive(c, OutputChecksum(c, output), elapsed, rBuf, rChecksum,
                    ChecksumFrame(s, OutputChecksum(s, output)), true, stdoutOk)
         == Continue([], OutputChecksum(c, output))
  {
    assert ChunkHashes(s, output) == ChunkHashes(c, output);
    assert ChecksumTypeOf(s) == ChecksumTypeOf(c);
    ChecksumReceived(s, c, OutputChecksum(s, output), OutputChecksum(c, output), elapsed, rBuf, rChecksum, stdoutOk);
  }
}
