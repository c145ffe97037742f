/** Frames of the kl_tcp channel. On the wire a frame is
      length word | checksum word | 14-byte KlCommHead | body
    where the length word counts everything after itself. KlSendMsg fills the
    two words into the first eight bytes of an archive built with room for
    them; KlReadMsg reads the length word, then that many bytes, and takes
    the checksum word off the front. The socket is an oracle: each poll read
    either times out, fails, or delivers the bytes it read. */
module Framing {
  import opened Bytes
  import opened Buffers
  import opened Protocol
  import opened Murmur
  import opened TcpComm

  /** What one KlPollRead call produced. */
  datatype PollOutcome = PollTimeout | PollFailed | PollData(bytes: seq<byte>)

  /** KlPollRead(buf, n) only ever succeeds with exactly n bytes. */
  predicate Delivers(p: PollOutcome, n: nat) { p.PollData? ==> |p.bytes| == n }

  /** The receive buffer every connection reserves before its first read
      (ApplyBuffMem with BUFSIZE + packetHeadLen), cleared before each read. */
  predicate ReadyToReceive(b: Buffer) {
    b.Valid() && b.rd == 0 && b.wr == 0 && b.Capacity() >= BUFSIZE + PACKET_HEAD_LEN
  }

  /** A read through GetRawBuffer(): the first |bytes| stored bytes are
      overwritten, indices untouched. */
  function RawFill(b: Buffer, bytes: seq<byte>): (r: Buffer)
    requires b.Valid() && |bytes| <= b.Capacity()
    ensures r.Valid() && r.rd == b.rd && r.wr == b.wr && r.Capacity() == b.Capacity()
    ensures r.data[..|bytes|] == bytes && r.data[|bytes|..] == b.data[|bytes|..]
  {
    Buffer(bytes + b.data[|bytes|..], b.rd, b.wr)
  }

  /** The length KlReadMsg sees in a length word. The word is read through
      c_str(), which first stores a NUL at the write index 0, so the most
      significant byte always reads as zero. */
  function LengthSeen(word: seq<byte>): (n: nat)
    requires |word| == 4
    ensures n < TWO_24
    ensures n == DecodeU32([0] + word[1..])
  {
    DecodeU32([0] + word[1..])
  }

  /** KlSendMsg(buf, hash): a buffer of at most two words is refused (1).
      Otherwise the big-endian length (everything after the length word,
      modulo 2^32) and the checksum are written over the first eight bytes
      and the write index goes back to the end; the frame is the readable
      content, and the result is 0 exactly when the socket took all of it.
      The c_str() that hands the frame to the socket also stores a NUL at
      the write index, one past the frame; that byte is outside the
      readable content and the model leaves it out. */
  function SendMsg(buf: Buffer, hash: uint32, sent: int): (r: (int, Buffer))
    requires buf.Valid() && buf.rd == 0
    ensures r.1.Valid()
    ensures buf.ReadableBytes() <= 2 * HEADER_LEN ==> r == (1, buf)
    ensures buf.ReadableBytes() > 2 * HEADER_LEN ==>
      r.1.Content() == EncodeU32((buf.ReadableBytes() - HEADER_LEN) % TWO_32) + EncodeU32(hash) + buf.Content()[2 * HEADER_LEN..]
      && (r.0 == 0 <==> sent == buf.ReadableBytes())
      && (r.0 != 0 ==> r.0 == 1)
  {
    var oLen := buf.ReadableBytes();
    if oLen <= 2 * HEADER_LEN then (1, buf)
    else
      var b0 := SetWriteIndex(buf, 0);
      var lenWord := EncodeU32((oLen - HEADER_LEN) % TWO_32);
      var (n1, b1) := Write(b0, lenWord, true);
      var (n2, b2) := Write(b1, EncodeU32(hash), true);
      assert b2.data[..8] == lenWord + EncodeU32(hash) by {
        assert b2.data[..4] == b1.data[..4];
      }
      assert b2.data[8..] == buf.data[8..];
      var b3 := SetWriteIndex(b2, oLen);
      assert b3.Content() == b2.data[..8] + b2.data[8..oLen];
      (if sent == oLen then 0 else 1, b3)
  }

  /** KlReadMsg into a cleared, reserved buffer. Results: the socket-timeout
      code when the length word timed out, the internal-error code for every
      other failure (a failed read, a length of 1..4 or above
      BUFSIZE + packetHeadLen, a short body read), 0 for a zero length, and
      otherwise the body length, with the checksum word decoded and the rest
      of the body left readable. */
  function ReadMsg(rBuf: Buffer, rChecksum: uint32, first: PollOutcome, second: PollOutcome): (r: (int, uint32, Buffer))
    requires ReadyToReceive(rBuf) && Delivers(first, HEADER_LEN)
    ensures r.2.Valid()
    ensures first.PollTimeout? ==> r.0 == KL_TCP_ERR_SOCKET_READ_TIMEOUT
    ensures first.PollFailed? ==> r.0 == KL_TCP_ERR_INTERNAL_ERROR
    ensures first.PollData? ==>
      var n := LengthSeen(first.bytes);
      (n == 0 ==> r.0 == 0) &&
      (0 < n <= HEADER_LEN || n > BUFSIZE + PACKET_HEAD_LEN ==> r.0 == KL_TCP_ERR_INTERNAL_ERROR) &&
      (HEADER_LEN < n <= BUFSIZE + PACKET_HEAD_LEN ==>
        if second.PollData? && |second.bytes| == n then
          r.0 == n && EncodeU32(r.1) == second.bytes[..4] && r.2.Content() == second.bytes[4..]
        else r.0 == KL_TCP_ERR_INTERNAL_ERROR)
    ensures r.0 <= 0 ==> r.1 == rChecksum
  {
    match first
    case PollTimeout => (KL_TCP_ERR_SOCKET_READ_TIMEOUT, rChecksum, rBuf)
    case PollFailed => (KL_TCP_ERR_INTERNAL_ERROR, rChecksum, rBuf)
    case PollData(word) =>
      var b1 := RawFill(rBuf, word);
      var (text, b2) := Buffers.CStr(b1);
      assert b2.data == b1.data[0 := 0];
      assert text[..4] == [0] + word[1..];
      var bufLen := U32ToI32(DecodeU32(text[..4]));
      if bufLen == 0 then (0, rChecksum, b2)
      else if bufLen <= HEADER_LEN then (KL_TCP_ERR_INTERNAL_ERROR, rChecksum, b2)
      else if bufLen > BUFSIZE + PACKET_HEAD_LEN then (KL_TCP_ERR_INTERNAL_ERROR, rChecksum, b2)
      else match second
        case PollData(body) =>
          if |body| != bufLen then (KL_TCP_ERR_INTERNAL_ERROR, rChecksum, b2)
          else
            var b3 := RawFill(b2, body);
            var b4 := SetWriteIndex(b3, bufLen);
            assert b4.Content() == body;
            var (rc, cs, b5) := DeserializeU32(b4, rChecksum);
            (bufLen, cs, b5)
        case _ => (KL_TCP_ERR_INTERNAL_ERROR, rChecksum, b2)
  }

  /** Only the low three bytes of the length word matter to the receiver. */
  lemma ReadMsgIgnoresHighByte(rBuf: Buffer, rChecksum: uint32, word: seq<byte>, x: byte, second: PollOutcome)
    requires ReadyToReceive(rBuf) && |word| == 4
    ensures ReadMsg(rBuf, rChecksum, PollData(word), second).0 ==
            ReadMsg(rBuf, rChecksum, PollData([x] + word[1..]), second).0
  {
    assert ([x] + word[1..])[1..] == word[1..];
  }

  // ---------------------------------------------------------------------------
  // Reference frames

  /** The checksum word a sender puts on a frame whose body (everything after
      the 14-byte head) is `body`: the MurmurHash of the body, or with
      KL_NCHECKSUM its length. */
  function BodyChecksum(c: ConnBase, body: seq<byte>): uint32 {
    if HasFlag(c.kltype, KL_NCHECKSUM) then |body| % TWO_32 else KlMurmurHashCode(body, |body|)
  }

  /** The frame carrying head `h` and `body`, with the length word and the checksum word. */
  function FrameOf(c: ConnBase, h: CommHead, body: seq<byte>): (f: seq<byte>)
    ensures |f| == 2 * HEADER_LEN + COMM_HEAD_LEN as int + |body|
  {
    var payload := EncodeHead(h) + body;
    EncodeU32((HEADER_LEN + |payload|) % TWO_32) + EncodeU32(BodyChecksum(c, body)) + payload
  }

  /** A fresh archive with the two words skipped (AdvanceWriteIndex(2 * kHeaderLen)).
      The constructor's 4096-byte allocation is taken to succeed; the skipped
      bytes are whatever the storage held, here zeros. */
  function NewArchive(): (b: Buffer)
    ensures b.Valid() && b.rd == 0 && b.wr == 2 * HEADER_LEN && b.Capacity() == DEFAULT_BUFFER_SIZE
  {
    Buffer(NewBuffer(true).data, 0, 2 * HEADER_LEN)
  }

  /** CalcSendChecksum over the bytes after the head, then KlSendMsg. */
  function SealAndSend(c: ConnBase, archive: Buffer, sent: int): (r: (int, Buffer))
    requires archive.Valid() && archive.rd == 0
    ensures r.1.Valid()
    ensures archive.ReadableBytes() < PACKET_HEAD_LEN ==> r == (1, archive)
  {
    var (rc, hash) := CalcSendChecksum(c, archive, PACKET_HEAD_LEN, 0);
    if rc != 0 then (rc, archive) else SendMsg(archive, hash, sent)
  }

  /** The sender's checksum over raw offset 22 is the body checksum. */
  lemma SenderHashIsBodyChecksum(c: ConnBase, archive: Buffer, pre: seq<byte>, h: CommHead, body: seq<byte>)
    requires archive.Valid() && archive.rd == 0 && |pre| == 2 * HEADER_LEN
    requires archive.Content() == pre + EncodeHead(h) + body
    ensures CalcSendChecksum(c, archive, PACKET_HEAD_LEN, 0) == (0, BodyChecksum(c, body))
  {
    var len := archive.ReadableBytes();
    assert len - PACKET_HEAD_LEN == |body|;
    var m := |body| % TWO_16;
    assert archive.data[PACKET_HEAD_LEN..archive.wr] == body;
    assert archive.data[PACKET_HEAD_LEN..][..m] == body[..m];
  }

  /** KlSendMsg on an archive holding eight reserved bytes and a payload. */
  lemma SendFrame(archive: Buffer, pre: seq<byte>, payload: seq<byte>, hash: uint32, sent: int)
    requires archive.Valid() && archive.rd == 0 && |pre| == 2 * HEADER_LEN && |payload| > 0
    requires archive.Content() == pre + payload
    ensures var (rc, o) := SendMsg(archive, hash, sent);
      o.Content() == EncodeU32((HEADER_LEN + |payload|) % TWO_32) + EncodeU32(hash) + payload
      && (rc == 0 <==> sent == 2 * HEADER_LEN + |payload|)
  {
    assert archive.Content()[2 * HEADER_LEN..] == payload;
  }

  /** KlSendMsg under the body checksum, on an archive holding room for the
      words, a head and a body, sends exactly the reference frame, and
      reports success exactly when the socket took all of it. */
  lemma SentFrame(c: ConnBase, archive: Buffer, pre: seq<byte>, h: CommHead, body: seq<byte>, sent: int)
    requires archive.Valid() && archive.rd == 0 && |pre| == 2 * HEADER_LEN
    requires archive.Content() == pre + EncodeHead(h) + body
    ensures var (rc, o) := SendMsg(archive, BodyChecksum(c, body), sent);
      o.Content() == FrameOf(c, h, body) && (rc == 0 <==> sent == |FrameOf(c, h, body)|)
  {
    var payload := EncodeHead(h) + body;
    assert archive.Content() == pre + payload;
    SendFrame(archive, pre, payload, BodyChecksum(c, body), sent);
    FrameIsWords(c, h, body);
  }

  /** With the checksum computed, sealing is sending. */
  lemma SealIsSend(c: ConnBase, archive: Buffer, sent: int, hash: uint32)
    requires archive.Valid() && archive.rd == 0
    requires CalcSendChecksum(c, archive, PACKET_HEAD_LEN, 0) == (0, hash)
    ensures SealAndSend(c, archive, sent) == SendMsg(archive, hash, sent)
  {
  }

  /** The reference frame spelled out as its two words and payload. */
  lemma FrameIsWords(c: ConnBase, h: CommHead, body: seq<byte>)
    ensures var payload := EncodeHead(h) + body;
      FrameOf(c, h, body) == EncodeU32((HEADER_LEN + |payload|) % TWO_32) + EncodeU32(BodyChecksum(c, body)) + payload
      && |FrameOf(c, h, body)| == 2 * HEADER_LEN + |payload|
  {
  }

  /** A length below 2^24 survives the receiver's masking of the top byte. */
  lemma LengthSeenOfSmall(n: nat)
    requires n < TWO_24
    ensures LengthSeen(EncodeU32(n)) == n
  {
    var w := EncodeU32(n);
    assert [0] + w[1..] == w;
    DecodeEncodeU32(n);
  }

  /** A well-formed frame reaches the receiver whole: the announced length,
      the checksum word, and the payload left readable. */
  lemma ReceiveWellFormed(rBuf: Buffer, rChecksum: uint32, cs: uint32, payload: seq<byte>)
    requires ReadyToReceive(rBuf)
    requires 0 < |payload| && HEADER_LEN + |payload| <= BUFSIZE + PACKET_HEAD_LEN
    ensures var f := EncodeU32(HEADER_LEN + |payload|) + EncodeU32(cs) + payload;
      var r := ReadMsg(rBuf, rChecksum, PollData(f[..4]), PollData(f[4..]));
      r.0 == |f| - HEADER_LEN && r.1 == cs && r.2.Content() == payload
  {
    var n := HEADER_LEN + |payload|;
    var f := EncodeU32(n) + EncodeU32(cs) + payload;
    assert f[..4] == EncodeU32(n);
    LengthSeenOfSmall(n);
    var r := ReadMsg(rBuf, rChecksum, PollData(f[..4]), PollData(f[4..]));
    assert f[4..][..4] == EncodeU32(cs);
    assert f[4..][4..] == payload;
    assert LengthSeen(f[..4]) == n;
    assert |f[4..]| == n;
    DecodeEncodeU32(r.1);
    DecodeEncodeU32(cs);
    assert r.2.Content() == payload;
  }

  /** The reference frame has the well-formed shape. */
  lemma FrameShape(c: ConnBase, h: CommHead, body: seq<byte>)
    requires HEADER_LEN + COMM_HEAD_LEN as int + |body| <= BUFSIZE + PACKET_HEAD_LEN
    ensures var payload := EncodeHead(h) + body;
      FrameOf(c, h, body) == EncodeU32(HEADER_LEN + |payload|) + EncodeU32(BodyChecksum(c, body)) + payload
  {
    var payload := EncodeHead(h) + body;
    var n := HEADER_LEN + |payload|;
    assert n % TWO_32 == n;
  }

  /** What a sender frames, a receiver with the same checksum mode reads
      back: the announced length, the checksum word, the same head, the same
      body, and a checksum comparison that passes. */
  lemma FrameRoundTrip(c: ConnBase, c': ConnBase, h: CommHead, body: seq<byte>, rBuf: Buffer, rChecksum: uint32)
    requires ReadyToReceive(rBuf)
    requires HasFlag(c.kltype, KL_NCHECKSUM) == HasFlag(c'.kltype, KL_NCHECKSUM)
    requires HEADER_LEN + COMM_HEAD_LEN as int + |body| <= BUFSIZE + PACKET_HEAD_LEN
    ensures var f := FrameOf(c, h, body);
      var (n, cs, b) := ReadMsg(rBuf, rChecksum, PollData(f[..4]), PollData(f[4..]));
      n == |f| - HEADER_LEN && cs == BodyChecksum(c, body) && b.Valid() &&
      var (rc, h', b') := DeserializeCommHead(b, ZeroHead);
      rc == 0 && h' == h && b'.Content() == body && ChecksumCompareResult(c', b', 0, cs)
  {
    var payload := EncodeHead(h) + body;
    FrameShape(c, h, body);
    ReceiveWellFormed(rBuf, rChecksum, BodyChecksum(c, body), payload);
    var f := FrameOf(c, h, body);
    var (n, cs, b) := ReadMsg(rBuf, rChecksum, PollData(f[..4]), PollData(f[4..]));
    CommHeadRoundTrip(b, h, ZeroHead, body);
    var (rc, h', b') := DeserializeCommHead(b, ZeroHead);
    assert b'.Content() == body;
    assert ChecksumCompareResult(c', b', 0, cs);
  }

  // ---------------------------------------------------------------------------
  // Outgoing packets

  /** What `Printf("%s", s.c_str())` leaves in a fresh Buffer: the bytes of
      `s` before its first NUL. */
  function UpToNul(s: seq<byte>): (r: seq<byte>)
    ensures |r| <= |s| && r == s[..|r|]
    ensures 0 !in r
    ensures |r| < |s| ==> s[|r|] == 0
  {
    if |s| == 0 || s[0] == 0 then [] else [s[0]] + UpToNul(s[1..])
  }

  /** A Buffer whose readable content is `text`. */
  function TextBuffer(text: seq<byte>): (b: Buffer)
    ensures b.Valid() && b.Content() == text
  {
    Buffer(text, 0, |text|)
  }

  /** An archive that holds the skipped words, a head and a body seals into
      the reference frame, and succeeds exactly when the socket took it all. */
  lemma Sealed(c: ConnBase, o: Buffer, h: CommHead, body: seq<byte>, sent: int)
    requires o.Valid() && o.rd == 0
    requires o.Content() == NewArchive().Content() + EncodeHead(h) + body
    ensures SealAndSend(c, o, sent).1.Content() == FrameOf(c, h, body)
    ensures SealAndSend(c, o, sent).0 == 0 <==> sent == |FrameOf(c, h, body)|
  {
    var pre := NewArchive().Content();
    SenderHashIsBodyChecksum(c, o, pre, h, body);
    SealIsSend(c, o, sent, BodyChecksum(c, body));
    SentFrame(c, o, pre, h, body, sent);
  }

  /** The body ReplyCommAnswer puts after the head: the return code and the text. */
  function ReplyBody(retcode: int32, cmdstr: seq<byte>): seq<byte> {
    EncodeCommResp(CommResp(retcode, UpToNul(cmdstr)))
  }

  /** ReplyCommAnswer(retcode, cmdtype, cmdstr): a KlCommResp packet under a
      head carrying the connection's sequence number. With memory available
      the frame sent is the reference frame, and the result is 0 exactly
      when the socket took all of it; every failure is 1. */
  function ReplyCommAnswer(c: ConnBase, retcode: int32, cmdtype: uint32, cmdstr: seq<byte>, allocOk: bool, sent: int): (r: (int, Buffer))
    ensures r.1.Valid() && (r.0 == 0 || r.0 == 1)
    ensures allocOk ==> r.1.Content() == FrameOf(c, InitCommHead(cmdtype, c.innseq), ReplyBody(retcode, cmdstr))
    ensures allocOk ==> (r.0 == 0 <==> sent == |FrameOf(c, InitCommHead(cmdtype, c.innseq), ReplyBody(retcode, cmdstr))|)
  {
    var h := InitCommHead(cmdtype, c.innseq);
    var (r2, o2) := ReplyArchive(h, retcode, cmdstr, allocOk);
    SealBuilt(c, h, ReplyBody(retcode, cmdstr), r2, o2, sent)
  }

  /** The archive ReplyCommAnswer fills before sealing: head, then KlCommResp body. */
  function ReplyArchive(h: CommHead, retcode: int32, cmdstr: seq<byte>, allocOk: bool): (r: (int, Buffer))
    ensures Built(h, ReplyBody(retcode, cmdstr), r.0, r.1)
    ensures allocOk ==> r.0 == 0
  {
    var (r1, o1) := SerializeCommHead(NewArchive(), h, allocOk);
    if r1 != 0 then (r1, o1) else
    SerializeRespCommBody(o1, CommRespStruct(retcode, TextBuffer(UpToNul(cmdstr))), allocOk)
  }

  /** What a packet builder leaves: a code of 0 or 1, and on 0 an archive
      holding the skipped words, head `h` and `body`. */
  predicate Built(h: CommHead, body: seq<byte>, rc: int, o: Buffer) {
    o.Valid() && o.rd == 0 && (rc == 0 || rc == 1)
    && (rc == 0 ==> o.Content() == NewArchive().Content() + EncodeHead(h) + body)
  }

  /** The shared tail of every packet sender: a builder failure is returned
      as is; otherwise the archive is sealed and sent. */
  function SealBuilt(c: ConnBase, h: CommHead, body: seq<byte>, rc: int, o: Buffer, sent: int): (r: (int, Buffer))
    requires Built(h, body, rc, o)
    ensures r.1.Valid() && (r.0 == 0 || r.0 == 1)
    ensures rc != 0 ==> r == (rc, o)
    ensures rc == 0 ==> r.1.Content() == FrameOf(c, h, body)
    ensures rc == 0 ==> (r.0 == 0 <==> sent == |FrameOf(c, h, body)|)
  {
    if rc != 0 then (rc, o) else
    Sealed(c, o, h, body, sent);
    SealAndSend(c, o, sent)
  }

  /** The decimal text `Printf("%lu", checksum)` writes. */
  function ChecksumText(checksum: uint64): (b: seq<byte>)
    ensures |b| > 0 && AsText(b) == CStr.NatToString(checksum)
  {
    var s := CStr.NatToString(checksum);
    assert Narrow(s) by {
      forall i | 0 <= i < |s| ensures s[i] as int < 0x100 {
        assert CStr.IsDigit(s[i]);
      }
    }
    AsTextOfAsBytes(s);
    AsBytes(s)
  }

  /** SendChecksumPacket(cmdtype, checksum): the checksum as decimal text in a KlCommReq. */
  function SendChecksumPacket(c: ConnBase, cmdtype: uint32, checksum: uint64, allocOk: bool, sent: int): (r: (int, Buffer))
    ensures r.1.Valid() && (r.0 == 0 || r.0 == 1)
    ensures allocOk ==> r.1.Content() == FrameOf(c, InitCommHead(cmdtype, c.innseq), EncodeCommReq(CommReq(ChecksumText(checksum))))
    ensures allocOk ==> (r.0 == 0 <==> sent == |FrameOf(c, InitCommHead(cmdtype, c.innseq), EncodeCommReq(CommReq(ChecksumText(checksum))))|)
  {
    var h := InitCommHead(cmdtype, c.innseq);
    var (r2, o2) := ReqArchive(h, TextBuffer(ChecksumText(checksum)), allocOk);
    SealBuilt(c, h, EncodeCommReq(CommReq(ChecksumText(checksum))), r2, o2, sent)
  }

  /** The archive of a KlCommReq packet: head, then the request bytes. */
  function ReqArchive(h: CommHead, req: Buffer, allocOk: bool): (r: (int, Buffer))
    requires req.Valid()
    ensures Built(h, EncodeCommReq(CommReq(req.Content())), r.0, r.1)
    ensures allocOk ==> r.0 == 0
  {
    var (r1, o1) := SerializeCommHead(NewArchive(), h, allocOk);
    if r1 != 0 then (r1, o1) else
    SerializeCommReqBody(o1, CommReqStruct(req), allocOk)
  }

  /** SendCommPacket(cmdtype, buff, bufLen): the bytes are first written into
      a fresh Buffer, and a short write is refused with 1 before anything
      else; then the same KlCommReq packet as above. */
  function SendCommPacket(c: ConnBase, cmdtype: uint32, buff: seq<byte>, allocOk: bool, sent: int): (r: (int, Buffer))
    ensures r.1.Valid() && (r.0 == 0 || r.0 == 1)
    ensures !allocOk && |buff| > DEFAULT_BUFFER_SIZE ==> r.0 == 1
    ensures allocOk ==> r.1.Content() == FrameOf(c, InitCommHead(cmdtype, c.innseq), EncodeCommReq(CommReq(buff)))
    ensures allocOk ==> (r.0 == 0 <==> sent == |FrameOf(c, InitCommHead(cmdtype, c.innseq), EncodeCommReq(CommReq(buff)))|)
  {
    var (n, req) := Write(NewBuffer(true), buff, allocOk);
    if n != |buff| then (1, NewArchive()) else
    var h := InitCommHead(cmdtype, c.innseq);
    var (r2, o2) := ReqArchive(h, req, allocOk);
    SealBuilt(c, h, EncodeCommReq(CommReq(buff)), r2, o2, sent)
  }

  /** PackCommHeader(cmdtype, sbuf): skip the two words, then append the head. */
  function PackCommHeader(c: ConnBase, cmdtype: uint32, sbuf: Buffer, allocOk: bool): (r: (int, Buffer))
    requires sbuf.Valid() && sbuf.wr + 2 * HEADER_LEN <= sbuf.Capacity()
    ensures r.1.Valid() && r.1.rd == sbuf.rd && (r.0 == 0 || r.0 == 1)
    ensures r.0 == 0 ==> r.1.Content() == sbuf.data[sbuf.rd..sbuf.wr + 2 * HEADER_LEN] + EncodeHead(InitCommHead(cmdtype, c.innseq))
    ensures allocOk ==> r.0 == 0
  {
    SerializeCommHead(Buffer(sbuf.data, sbuf.rd, sbuf.wr + 2 * HEADER_LEN), InitCommHead(cmdtype, c.innseq), allocOk)
  }

  /** A buffer that carries head `h` just past the two words, with room for
      a chunk of up to BUFSIZE bytes after it: what PackCommHeader leaves in
      a receive-sized buffer, and what every send below keeps. */
  predicate Packed(b: Buffer, h: CommHead) {
    b.Valid() && b.rd == 0 && PACKET_HEAD_LEN <= b.wr
    && b.Capacity() >= BUFSIZE + PACKET_HEAD_LEN
    && b.data[2 * HEADER_LEN..PACKET_HEAD_LEN] == EncodeHead(h)
  }

  /** read(fd, GetRawWriteBuffer(), BUFSIZE) after SetWriteIndex(packetHeadLen):
      the bytes land right after the head and the write index follows them. */
  function PlaceChunk(b: Buffer, chunk: seq<byte>): (r: Buffer)
    requires b.Valid() && b.rd == 0 && PACKET_HEAD_LEN + |chunk| <= b.Capacity()
    ensures r.Valid() && r.rd == 0 && r.wr == PACKET_HEAD_LEN + |chunk| && r.Capacity() == b.Capacity()
    ensures r.data[..PACKET_HEAD_LEN] == b.data[..PACKET_HEAD_LEN]
    ensures r.data[PACKET_HEAD_LEN..r.wr] == chunk
  {
    var d := b.data[..PACKET_HEAD_LEN] + chunk + b.data[PACKET_HEAD_LEN + |chunk|..];
    assert d[PACKET_HEAD_LEN..PACKET_HEAD_LEN + |chunk|] == chunk;
    Buffer(d, 0, PACKET_HEAD_LEN + |chunk|)
  }

  /** One pass of the command-output reader loop (and of kl_tool's stdin
      loop): place the bytes read, checksum them from offset packetHeadLen,
      then KlSendMsg. Returns the send result, the hash folded into the
      running checksum, and the buffer as the next pass finds it. */
  function SendChunk(c: ConnBase, packed: Buffer, h: CommHead, chunk: seq<byte>, sent: int): (r: (int, uint32, Buffer))
    requires Packed(packed, h) && 0 < |chunk| <= BUFSIZE
    ensures Packed(r.2, h)
    ensures r.1 == BodyChecksum(c, chunk)
    ensures r.2.Content() == FrameOf(c, h, chunk)
    ensures r.0 == 0 <==> sent == |FrameOf(c, h, chunk)|
  {
    var b := PlaceChunk(packed, chunk);
    ChunkHash(c, b, h, chunk);
    var (rc, hash) := CalcSendChecksum(c, b, PACKET_HEAD_LEN, 0);
    ChunkSent(c, b, h, chunk, sent);
    var (s, o) := SendMsg(b, hash, sent);
    (s, hash, o)
  }

  /** The placed chunk is checksummed as the body of its frame. */
  lemma ChunkHash(c: ConnBase, b: Buffer, h: CommHead, chunk: seq<byte>)
    requires b.Valid() && b.rd == 0 && b.wr == PACKET_HEAD_LEN + |chunk|
    requires b.data[2 * HEADER_LEN..PACKET_HEAD_LEN] == EncodeHead(h)
    requires b.data[PACKET_HEAD_LEN..b.wr] == chunk
    ensures CalcSendChecksum(c, b, PACKET_HEAD_LEN, 0) == (0, BodyChecksum(c, chunk))
  {
    var pre := b.data[..2 * HEADER_LEN];
    ChunkLayout(b, pre, h, chunk);
    SenderHashIsBodyChecksum(c, b, pre, h, chunk);
  }

  /** Sending the placed chunk under its body checksum sends its frame and
      leaves the buffer packed for the next pass. */
  lemma ChunkSent(c: ConnBase, b: Buffer, h: CommHead, chunk: seq<byte>, sent: int)
    requires b.Valid() && b.rd == 0 && b.wr == PACKET_HEAD_LEN + |chunk| && 0 < |chunk|
    requires b.Capacity() >= BUFSIZE + PACKET_HEAD_LEN
    requires b.data[2 * HEADER_LEN..PACKET_HEAD_LEN] == EncodeHead(h)
    requires b.data[PACKET_HEAD_LEN..b.wr] == chunk
    ensures var (s, o) := SendMsg(b, BodyChecksum(c, chunk), sent);
      Packed(o, h) && o.Content() == FrameOf(c, h, chunk) && (s == 0 <==> sent == |FrameOf(c, h, chunk)|)
  {
    var hash := BodyChecksum(c, chunk);
    var pre := b.data[..2 * HEADER_LEN];
    ChunkLayout(b, pre, h, chunk);
    SendFrame(b, pre, EncodeHead(h) + chunk, hash, sent);
    FrameIsWords(c, h, chunk);
    SendMsgKeepsTail(b, hash, sent);
    var o := SendMsg(b, hash, sent).1;
    assert o.data[2 * HEADER_LEN..PACKET_HEAD_LEN] == b.data[2 * HEADER_LEN..][..14];
  }

  lemma ChunkLayout(b: Buffer, pre: seq<byte>, h: CommHead, chunk: seq<byte>)
    requires b.Valid() && b.rd == 0 && b.wr == PACKET_HEAD_LEN + |chunk|
    requires pre == b.data[..2 * HEADER_LEN]
    requires b.data[2 * HEADER_LEN..PACKET_HEAD_LEN] == EncodeHead(h)
    requires b.data[PACKET_HEAD_LEN..b.wr] == chunk
    ensures b.Content() == pre + EncodeHead(h) + chunk
  {
    assert b.data[..b.wr] == b.data[..2 * HEADER_LEN] + b.data[2 * HEADER_LEN..PACKET_HEAD_LEN] + b.data[PACKET_HEAD_LEN..b.wr];
  }

  /** KlSendMsg rewrites only the first eight bytes and keeps the capacity. */
  lemma SendMsgKeepsTail(buf: Buffer, hash: uint32, sent: int)
    requires buf.Valid() && buf.rd == 0 && buf.ReadableBytes() > 2 * HEADER_LEN
    ensures var o := SendMsg(buf, hash, sent).1;
      o.rd == 0 && o.wr == buf.wr && |o.data| == |buf.data| && o.data[2 * HEADER_LEN..] == buf.data[2 * HEADER_LEN..]
  {
    var b0 := SetWriteIndex(buf, 0);
    var lenWord := EncodeU32((buf.ReadableBytes() - HEADER_LEN) % TWO_32);
    WriteInPlace(b0, lenWord, true);
    var (n1, b1) := Write(b0, lenWord, true);
    WriteInPlace(b1, EncodeU32(hash), true);
    var (n2, b2) := Write(b1, EncodeU32(hash), true);
    assert b2.data[2 * HEADER_LEN..] == buf.data[2 * HEADER_LEN..];
  }

  /** PackCommHeader on the reader's fresh receive-sized buffer leaves it packed. */
  lemma PackedAfterHeader(c: ConnBase, cmdtype: uint32, sbuf: Buffer, allocOk: bool)
    requires ReadyToReceive(sbuf)
    ensures var (rc, o) := PackCommHeader(c, cmdtype, sbuf, allocOk);
      rc == 0 ==> Packed(o, InitCommHead(cmdtype, c.innseq))
  {
    var (rc, o) := PackCommHeader(c, cmdtype, sbuf, allocOk);
    if rc == 0 {
      var h := InitCommHead(cmdtype, c.innseq);
      assert o.Content() == sbuf.data[..2 * HEADER_LEN] + EncodeHead(h);
      assert o.data[2 * HEADER_LEN..PACKET_HEAD_LEN] == o.Content()[2 * HEADER_LEN..];
    }
  }

  // ---------------------------------------------------------------------------
  // Receiving what was sent

  /** A reply frame reaches a receiver with the same checksum mode intact: the
      head built by InitKlCommHead with the sender's sequence number, a
      passing checksum, and the return code and text. */
  lemma ReplyRoundTrip(c: ConnBase, c': ConnBase, retcode: int32, cmdtype: uint32, cmdstr: seq<byte>,
                       rBuf: Buffer, rChecksum: uint32, q: CommRespStruct)
    requires ReadyToReceive(rBuf)
    requires HasFlag(c.kltype, KL_NCHECKSUM) == HasFlag(c'.kltype, KL_NCHECKSUM)
    requires |cmdstr| + HEADER_LEN <= BUFSIZE
    requires q.Valid() && q.errinfo.Content() == []
    ensures var f := FrameOf(c, InitCommHead(cmdtype, c.innseq), ReplyBody(retcode, cmdstr));
      var (n, cs, b) := ReadMsg(rBuf, rChecksum, PollData(f[..4]), PollData(f[4..]));
      b.Valid() &&
      var (rc, h', b') := DeserializeCommHead(b, ZeroHead);
      rc == 0 && h'.cmdtype == cmdtype && h'.innseq == c.innseq && ChecksumCompareResult(c', b', 0, cs) &&
      var (rc2, q', b'') := DeserializeRespCommBody(b', q, true);
      rc2 == 0 && q'.errcode == retcode && q'.errinfo.Content() == UpToNul(cmdstr)
  {
    var h := InitCommHead(cmdtype, c.innseq);
    var body := ReplyBody(retcode, cmdstr);
    var m := CommResp(retcode, UpToNul(cmdstr));
    ModSmall(|m.errinfo|);
    assert |body| == 2 * HEADER_LEN + |m.errinfo|;
    FrameRoundTrip(c, c', h, body, rBuf, rChecksum);
    var f := FrameOf(c, h, body);
    var (n, cs, b) := ReadMsg(rBuf, rChecksum, PollData(f[..4]), PollData(f[4..]));
    var (rc, h', b') := DeserializeCommHead(b, ZeroHead);
    RespReadBack(b', m, q);
  }

  /** A response body read back from a buffer holding exactly its encoding. */
  lemma RespReadBack(b: Buffer, m: CommResp, q: CommRespStruct)
    requires b.Valid() && b.Content() == EncodeCommResp(m) && |m.errinfo| < TWO_32
    requires q.Valid() && q.errinfo.Content() == []
    ensures var (rc, q', _) := DeserializeRespCommBody(b, q, true);
      rc == 0 && q'.errcode == m.errcode && q'.errinfo.Content() == m.errinfo
  {
    assert b.Content() == EncodeCommResp(m) + [];
    RespRoundTrip(b, m, q, []);
  }

  /** A checksum packet reaches the receiver as the decimal text of the checksum. */
  lemma ChecksumPacketRoundTrip(c: ConnBase, c': ConnBase, cmdtype: uint32, checksum: uint64,
                                rBuf: Buffer, rChecksum: uint32, q: CommReqStruct)
    requires ReadyToReceive(rBuf)
    requires HasFlag(c.kltype, KL_NCHECKSUM) == HasFlag(c'.kltype, KL_NCHECKSUM)
    requires q.Valid() && q.commReq.Content() == []
    ensures var body := EncodeCommReq(CommReq(ChecksumText(checksum)));
      var f := FrameOf(c, InitCommHead(cmdtype, c.innseq), body);
      var (n, cs, b) := ReadMsg(rBuf, rChecksum, PollData(f[..4]), PollData(f[4..]));
      b.Valid() &&
      var (rc, h', b') := DeserializeCommHead(b, ZeroHead);
      rc == 0 && h'.cmdtype == cmdtype && h'.innseq == c.innseq && ChecksumCompareResult(c', b', 0, cs) &&
      var (rc2, q', b'') := DeserializeCommReqBody(b', q, true);
      rc2 == 0 && q'.commReq.Content() == ChecksumText(checksum)
  {
    var h := InitCommHead(cmdtype, c.innseq);
    var text := ChecksumText(checksum);
    ChecksumTextShort(checksum);
    var body := EncodeCommReq(CommReq(text));
    ModSmall(|text|);
    assert |body| == HEADER_LEN + |text|;
    FrameRoundTrip(c, c', h, body, rBuf, rChecksum);
    var f := FrameOf(c, h, body);
    var (n, cs, b) := ReadMsg(rBuf, rChecksum, PollData(f[..4]), PollData(f[4..]));
    var (rc, h', b') := DeserializeCommHead(b, ZeroHead);
    ReqReadBack(b', CommReq(text), q);
  }

  /** A request body read back from a buffer holding exactly its encoding. */
  lemma ReqReadBack(b: Buffer, m: CommReq, q: CommReqStruct)
    requires b.Valid() && b.Content() == EncodeCommReq(m) && |m.commReq| < TWO_32
    requires q.Valid() && q.commReq.Content() == []
    ensures var (rc, q', _) := DeserializeCommReqBody(b, q, true);
      rc == 0 && q'.commReq.Content() == m.commReq
  {
    assert b.Content() == EncodeCommReq(m) + [];
    CommReqRoundTrip(b, m, q, []);
  }

  /** An unsigned long has at most 20 decimal digits. */
  lemma ChecksumTextShort(checksum: uint64)
    ensures |ChecksumText(checksum)| <= 20
  {
    CStr.Pow10Of20();
    CStr.NatToStringLength(checksum, 20);
  }

  /** A data chunk reaches the receiver whole, and the hash the receiver folds
      in (CalcSendChecksum from the read index) is the sender's. */
  lemma ChunkRoundTrip(c: ConnBase, c': ConnBase, h: CommHead, chunk: seq<byte>, rBuf: Buffer, rChecksum: uint32)
    requires ReadyToReceive(rBuf)
    requires HasFlag(c.kltype, KL_NCHECKSUM) == HasFlag(c'.kltype, KL_NCHECKSUM)
    requires |chunk| <= BUFSIZE
    ensures var f := FrameOf(c, h, chunk);
      var (n, cs, b) := ReadMsg(rBuf, rChecksum, PollData(f[..4]), PollData(f[4..]));
      b.Valid() &&
      var (rc, h', b') := DeserializeCommHead(b, ZeroHead);
      rc == 0 && h' == h && b'.Content() == chunk &&
      CalcSendChecksum(c', b', 0, 0) == (0, BodyChecksum(c, chunk))
  {
    FrameRoundTrip(c, c', h, chunk, rBuf, rChecksum);
  }
}
