/** The connection-level helpers of the kl_tcp remote-command channel:
    size and timeout constants, mode flags, the session states, the
    per-connection and per-transfer records with their initial values,
    strlcpy, elapsed-time arithmetic, checksum computation and comparison,
    running checksum accumulation and the sequence-number check. */
module TcpComm {
  import opened Bytes
  import opened Buffers
  import opened Murmur
  import CStr

  const BUFSIZE: nat := 131072
  const CLIBUFSIZE: nat := 8192
  const KL_TIMEOUT: nat := 5000

  /** sizeof(int32_t): the length word and the checksum word. */
  const HEADER_LEN: nat := 4
  /** Two words plus the packed 14-byte KlCommHead. */
  const PACKET_HEAD_LEN: nat := 2 * HEADER_LEN + 14
  const FIXED_TIMEOUT: nat := 86400000
  const WAIT_THREAD_TIMEOUT: nat := KL_TIMEOUT + 3000

  const KL_FILE_TRANSMIT: nat := 0x01
  const KL_FILE_COVER: nat := 0x02
  const KL_DAEMON: nat := 0x04
  const KL_NCHECKSUM: nat := 0x08
  const KL_TIMEOUTKILLCHILD: nat := 0x10
  const CHECKSUM_TYPE: int := 1

  /** The result codes of tcp_error.h that this channel uses. That header is
      not part of this model; the code only relies on success being 0 and
      every error being a distinct negative value, which these stand-ins are. */
  const KL_TCP_ERR_SUCCESS: int := 0
  const KL_TCP_ERR_INTERNAL_ERROR: int := -1
  const KL_TCP_ERR_FILE_EXIST: int := -40
  const KL_TCP_ERR_SOCKET_READ_TIMEOUT: int := -60
  const KL_TCP_ERR_CONN_CLOSED: int := -61
  const KL_TCP_ERR_CONN_CORRUPT: int := -62
  const KL_TCP_ERR_PTHREAD_CHILD_QUIT: int := -63
  const KL_TCP_ERR_FILE_READ_FAILED: int := -64
  const KL_TCP_ERR_FILE_READ_END: int := -65

  /** `v & flag` for a single-bit flag, on the two's-complement bits of an `int`. */
  predicate HasFlag(v: int, flag: nat)
    requires flag > 0
  {
    (v % TWO_32) / flag % 2 == 1
  }

  /** The five mode flags are pairwise distinct single bits. */
  lemma FlagsAreDistinctBits()
    ensures forall f, g | f in {KL_FILE_TRANSMIT, KL_FILE_COVER, KL_DAEMON, KL_NCHECKSUM, KL_TIMEOUTKILLCHILD}
                      && g in {KL_FILE_TRANSMIT, KL_FILE_COVER, KL_DAEMON, KL_NCHECKSUM, KL_TIMEOUTKILLCHILD} ::
              HasFlag(f, g) <==> f == g
  {
  }

  /** Aconn_State: the status an asynchronous reader reports. */
  datatype AconnState = KL_CNOMRAL | KL_CTIMEOUT | KL_CERROR | KL_CLOSE

  /** Task_State: server states, then client states, then the sentinel. */
  datatype TaskState =
    | KL_INITIALIZE
    | KL_AUTHORIZE
    | KL_CMD_INPUT
    | KL_FILE_RECV_STAT
    | KL_FILE_RECV_MSG
    | KL_FILE_RECV_CHECKSUM_RESULT
    | KL_FILE_SEND_STAT
    | KL_FILE_SEND_MSG_BEGIN
    | KL_FILE_SEND_MSG_RUN
    | KL_CONN_END
    | KL_SEND_HANDLESHAKE_SERVER
    | KL_SEND_COMMAND_SERVER
    | KL_SEND_INPUT_MSG_SERVER
    | KL_SEND_FILE_TRANSLATE_TYPE
    | KL_SEND_FILE_STATUS_SERVER
    | KL_SEND_FILE_MSG_SERVER
    | KL_SEND_FILE_WAIT_RESULT
    | KL_CHECK_LOCAL_RECV_FILE
    | KL_RECV_FILE_STATUS
    | KL_RECV_FILE_MSG
    | KL_RECV_FILE_CHECKSUM
    | KL_ALL_STATUS

  /** The enumerator value C assigns to each state (0, 1, 2, ... in order). */
  function StateOrdinal(s: TaskState): (n: nat)
    ensures n <= 21
    ensures s == KL_INITIALIZE <==> n == 0
    ensures s.KL_ALL_STATUS? <==> n == 21
    ensures s.KL_CONN_END? <==> n == 9
  {
    match s
    case KL_INITIALIZE => 0
    case KL_AUTHORIZE => 1
    case KL_CMD_INPUT => 2
    case KL_FILE_RECV_STAT => 3
    case KL_FILE_RECV_MSG => 4
    case KL_FILE_RECV_CHECKSUM_RESULT => 5
    case KL_FILE_SEND_STAT => 6
    case KL_FILE_SEND_MSG_BEGIN => 7
    case KL_FILE_SEND_MSG_RUN => 8
    case KL_CONN_END => 9
    case KL_SEND_HANDLESHAKE_SERVER => 10
    case KL_SEND_COMMAND_SERVER => 11
    case KL_SEND_INPUT_MSG_SERVER => 12
    case KL_SEND_FILE_TRANSLATE_TYPE => 13
    case KL_SEND_FILE_STATUS_SERVER => 14
    case KL_SEND_FILE_MSG_SERVER => 15
    case KL_SEND_FILE_WAIT_RESULT => 16
    case KL_CHECK_LOCAL_RECV_FILE => 17
    case KL_RECV_FILE_STATUS => 18
    case KL_RECV_FILE_MSG => 19
    case KL_RECV_FILE_CHECKSUM => 20
    case KL_ALL_STATUS => 21
  }

  /** Server states are exactly the enumerators before KL_SEND_HANDLESHAKE_SERVER. */
  predicate IsServerState(s: TaskState) { StateOrdinal(s) <= 9 }

  /** Distinct states have distinct enumerator values. */
  lemma StateOrdinalInjective(s: TaskState, t: TaskState)
    ensures StateOrdinal(s) == StateOrdinal(t) <==> s == t
  {
  }

  // ---------------------------------------------------------------------------
  // Connection and transfer records

  /** KConnBase: socket, mode flags, timeout, rate limit and sequence number. */
  datatype ConnBase = ConnBase(sockfd: int, kltype: int, timeout: int, ratelimit: uint32, innseq: uint32)

  /** KConnBase(sockfd): everything but the socket starts at 0. */
  function NewConnBase(sockfd: int): (c: ConnBase)
    ensures c.sockfd == sockfd && c.kltype == 0 && c.innseq == 0
    ensures c.timeout == 0 && c.ratelimit == 0
  {
    ConnBase(sockfd, 0, 0, 0, 0)
  }

  /** ConnSeqAddOne: the uint32 sequence number advances, wrapping at 2^32. */
  function ConnSeqAddOne(c: ConnBase): (r: ConnBase)
    ensures r.innseq as int == (c.innseq as int + 1) % TWO_32
    ensures r == c.(innseq := r.innseq)
  {
    c.(innseq := (c.innseq + 1) % TWO_32)
  }

  predicate IsSeqEqual(c: ConnBase, rSeq: uint32) { c.innseq == rSeq }

  /** Only the sequence number just reached is accepted after an increment:
      the predecessor is rejected. */
  lemma SeqAddOneRejectsPrevious(c: ConnBase)
    ensures IsSeqEqual(ConnSeqAddOne(c), (c.innseq + 1) % TWO_32)
    ensures !IsSeqEqual(ConnSeqAddOne(c), c.innseq)
  {
  }

  /** CloseSockfd: an open socket is closed and marked -1; otherwise nothing changes. */
  function CloseSockfd(c: ConnBase): (r: ConnBase)
    ensures c.sockfd >= 0 ==> r == c.(sockfd := -1)
    ensures c.sockfd < 0 ==> r == c
  {
    if c.sockfd >= 0 then c.(sockfd := -1) else c
  }

  /** KFileStat: the descriptor of the stream being relayed and its running checksum. */
  datatype FileStat = FileStat(fd: int, checksum: uint64, filePid: int)

  /** A new KFileStat has no descriptor and a zero checksum. */
  function NewFileStat(): (f: FileStat)
    ensures f.fd == -1 && f.checksum == 0
  {
    FileStat(-1, 0, 0)
  }

  /** CloseFd: an open descriptor is closed and marked -1; otherwise nothing changes. */
  function CloseFd(f: FileStat): (r: FileStat)
    ensures f.fd >= 0 ==> r == f.(fd := -1)
    ensures f.fd < 0 ==> r == f
  {
    if f.fd >= 0 then f.(fd := -1) else f
  }

  /** Closing twice is closing once. */
  lemma CloseFdIdempotent(f: FileStat)
    ensures CloseFd(CloseFd(f)) == CloseFd(f)
    ensures CloseFd(f).fd < 0
  {
  }

  // ---------------------------------------------------------------------------
  // strlcpy

  /** A NUL right after a NUL-free prefix ends the C string there. */
  lemma CStringEndsAt(s: string, m: nat)
    requires m < |s| && s[m] == '\0' && '\0' !in s[..m]
    ensures CStr.CString(s) == s[..m]
  {
  }

  /** strlcpy over a destination of at least `siz` characters and a
      NUL-terminated source, following the C pointer loop. It copies at most
      siz-1 characters, always terminates a non-empty destination, leaves
      the rest of the destination alone, and returns strlen(src); the copy
      was truncated exactly when that result is at least `siz`. */
  method StrLCpy(dst: string, src: string, siz: nat) returns (out: string, ret: nat)
    requires siz <= |dst|
    requires '\0' in src
    ensures ret == |CStr.CString(src)|
    ensures |out| == |dst|
    ensures siz == 0 ==> out == dst
    ensures siz > 0 ==>
      var m := CStr.Min(ret, siz - 1);
      out[..m] == src[..m] && out[m] == '\0' && out[m + 1..] == dst[m + 1..]
    ensures siz > 0 ==> (CStr.CString(out) == CStr.CString(src) <==> ret < siz)
  {
    ghost var len := |CStr.CString(src)|;
    out := dst;
    var d: nat := 0;
    var s: nat := 0;
    var n: nat := siz;
    if n != 0 {
      out, d, n := CopyPhase(dst, src, siz);
      s := d;
    }
    if n == 0 {
      if siz != 0 {
        TerminateAt(dst, src, out, d);
        out := out[d := '\0'];
      }
      s := SkipToNul(src, s);
    } else {
      NulCopied(dst, src, out, d);
    }
    ret := s - 1;
    if siz > 0 {
      CStringEndsAt(out, CStr.Min(ret, siz - 1));
    }
  }

  /** The copy loop of strlcpy: copies characters, the NUL included, while
      fewer than `siz - 1` have been copied. On leaving, either the budget
      ran out (`n == 0`) or the source's NUL was the last character copied. */
  method CopyPhase(dst: string, src: string, siz: nat) returns (out: string, d: nat, n: nat)
    requires 0 < siz <= |dst| && '\0' in src
    ensures d < siz && d <= |src|
    ensures |out| == |dst| && out[..d] == src[..d] && out[d..] == dst[d..]
    ensures n == 0 ==> d == siz - 1 && d <= |CStr.CString(src)|
    ensures n != 0 ==> 0 < d < siz && d - 1 == |CStr.CString(src)|
  {
    ghost var len := |CStr.CString(src)|;
    out := dst;
    d := 0;
    var s: nat := 0;
    n := siz - 1;
    while n != 0
      invariant d == s && d + n == siz - 1 && d <= len
      invariant |out| == |dst|
      invariant out[..d] == src[..d] && out[d..] == dst[d..]
      decreases n
    {
      out := out[d := src[s]];
      d := d + 1;
      s := s + 1;
      if src[s - 1] == '\0' {
        return;
      }
      n := n - 1;
    }
  }

  /** The second loop of strlcpy: walks on to the source's NUL and one past it. */
  method SkipToNul(src: string, s0: nat) returns (s: nat)
    requires '\0' in src && s0 <= |CStr.CString(src)|
    ensures s == |CStr.CString(src)| + 1
  {
    ghost var len := |CStr.CString(src)|;
    s := s0;
    while src[s] != '\0'
      invariant s <= len
      decreases len - s
    {
      s := s + 1;
    }
    s := s + 1;
  }

  /** Writing the terminator right after a copied prefix. */
  lemma TerminateAt(dst: string, src: string, out: string, d: nat)
    requires |out| == |dst| && d < |out| && d <= |src|
    requires out[..d] == src[..d] && out[d..] == dst[d..]
    ensures out[d := '\0'][..d] == src[..d]
    ensures out[d := '\0'][d + 1..] == dst[d + 1..]
  {
    assert out[d := '\0'][d + 1..] == out[d + 1..];
  }

  /** When the NUL itself was copied, the copy is already terminated. */
  lemma NulCopied(dst: string, src: string, out: string, d: nat)
    requires 0 < d <= |src| && |out| == |dst| && d <= |out|
    requires src[d - 1] == '\0'
    requires out[..d] == src[..d] && out[d..] == dst[d..]
    ensures out[..d - 1] == src[..d - 1] && out[d - 1] == '\0'
  {
    assert out[d - 1] == out[..d][d - 1];
  }

  // ---------------------------------------------------------------------------
  // Time

  /** KlCostMsec: the uint64 difference reinterpreted as int64, floored at 0. */
  function CostMsec(begin: uint64, end: uint64): (r: nat)
    ensures r < TWO_63
    ensures begin <= end && end - begin < TWO_63 ==> r == end - begin
    ensures end <= begin && begin - end <= TWO_63 ==> r == 0
  {
    var diff := (end - begin) % TWO_64;
    var cost := if diff >= TWO_63 then diff - TWO_64 else diff;
    if cost <= 0 then 0 else cost
  }

  // ---------------------------------------------------------------------------
  // Checksums

  /** CalcSendChecksum(sbuf, posIndex, hash): fails (1, hash unchanged) when
      fewer than posIndex bytes are readable. With checksums on, a non-zero
      posIndex hashes the bytes from raw offset posIndex (not from the read
      index) and posIndex 0 hashes the readable bytes; with KL_NCHECKSUM the
      "checksum" is the byte count past posIndex. */
  function CalcSendChecksum(c: ConnBase, sbuf: Buffer, posIndex: nat, hash: uint32): (r: (int, uint32))
    requires sbuf.Valid()
    ensures r.0 == 1 <==> sbuf.ReadableBytes() < posIndex
    ensures r.0 != 1 ==> r.0 == 0
    ensures r.0 == 1 ==> r.1 == hash
    ensures r.0 == 0 && HasFlag(c.kltype, KL_NCHECKSUM) ==>
      r.1 == (sbuf.ReadableBytes() - posIndex) % TWO_32
  {
    var len := sbuf.ReadableBytes();
    if len < posIndex then (1, hash)
    else if !HasFlag(c.kltype, KL_NCHECKSUM) then
      if posIndex > 0 then (0, KlMurmurHashCode(sbuf.data[posIndex..], len - posIndex))
      else (0, KlMurmurHashCode(sbuf.Content(), len))
    else (0, (len - posIndex) % TWO_32)
  }

  /** ChecksumCompareResult: the checksum computes and equals the received one. */
  predicate ChecksumCompareResult(c: ConnBase, sbuf: Buffer, posIndex: nat, rChecksum: uint32)
    requires sbuf.Valid()
  {
    var (rc, h) := CalcSendChecksum(c, sbuf, posIndex, 0);
    rc == 0 && h == rChecksum
  }

  /** The hash-mode and count-mode values the receiver compares against, stated
      independently of CalcSendChecksum. */
  function ExpectedChecksum(c: ConnBase, sbuf: Buffer, posIndex: nat): uint32
    requires sbuf.Valid() && posIndex <= sbuf.ReadableBytes()
  {
    if HasFlag(c.kltype, KL_NCHECKSUM) then (sbuf.ReadableBytes() - posIndex) % TWO_32
    else if posIndex == 0 then KlMurmurHashCode(sbuf.Content(), sbuf.ReadableBytes())
    else KlMurmurHashCode(sbuf.data[posIndex..], sbuf.ReadableBytes() - posIndex)
  }

  /** The comparison holds exactly when enough bytes are present and the
      received value is the expected checksum. */
  lemma ChecksumCompareSpec(c: ConnBase, sbuf: Buffer, posIndex: nat, rChecksum: uint32)
    requires sbuf.Valid()
    ensures ChecksumCompareResult(c, sbuf, posIndex, rChecksum) <==>
      posIndex <= sbuf.ReadableBytes() && ExpectedChecksum(c, sbuf, posIndex) == rChecksum
  {
  }

  /** KlMsgChecksum(type, hash) on an unsigned long: hash mode stores the
      first hash and XORs in the rest; count mode adds, modulo 2^64. */
  function MsgChecksum(checksum: uint64, checksumType: int, hash: uint32): (r: uint64)
    ensures checksumType != 0 ==> r == Xor64(checksum, hash)
    ensures checksumType == 0 ==> r == (checksum + hash) % TWO_64
  {
    Pow2of64();
    if checksumType != 0 then
      if checksum == 0 then
        XorZero(hash);
        XorComm(hash, 0);
        hash
      else Xor64(checksum, hash)
    else (checksum + hash) % TWO_64
  }

  /** KlMsgChecksum(type, buffer, len): hash mode folds in the hash of the
      first `len` (as an unsigned short) bytes; count mode adds `len` itself
      converted to unsigned long. */
  function MsgChecksumData(checksum: uint64, checksumType: int, buffer: seq<byte>, len: int32): (r: uint64)
    requires len % TWO_16 <= |buffer|
    ensures checksumType != 0 ==> r == MsgChecksum(checksum, checksumType, KlMurmurHashCode(buffer, len % TWO_16))
    ensures checksumType == 0 ==> r == (checksum + len) % TWO_64
  {
    Pow2of64();
    if checksumType != 0 then
      var h := KlMurmurHashCode(buffer, len % TWO_16);
      if checksum == 0 then h else Xor64(checksum, h)
    else (checksum + len) % TWO_64
  }

  /** The running checksum after folding in a sequence of hashes, in order. */
  function Accumulate(checksum: uint64, checksumType: int, hashes: seq<uint32>): uint64
    decreases |hashes|
  {
    if |hashes| == 0 then checksum
    else Accumulate(MsgChecksum(checksum, checksumType, hashes[0]), checksumType, hashes[1..])
  }

  /** The XOR of all values, with no special case. */
  function XorAll(hashes: seq<uint32>): (r: uint64)
  {
    Pow2of64();
    if |hashes| == 0 then 0 else Xor64(XorAll(hashes[..|hashes| - 1]), hashes[|hashes| - 1])
  }

  lemma {:induction false} XorAllAppend(a: seq<uint32>, b: seq<uint32>)
    ensures XorAll(a + b) == Xor64(XorAll(a), XorAll(b))
    decreases |b|
  {
    Pow2of64();
    if |b| == 0 {
      assert a + b == a;
      XorZero(XorAll(a));
    } else {
      var b' := b[..|b| - 1];
      assert (a + b)[..|a + b| - 1] == a + b';
      XorAllAppend(a, b');
      XorAssoc(XorAll(a), XorAll(b'), b[|b| - 1]);
    }
  }

  /** In hash mode the special case for a zero running value changes nothing:
      accumulation from 0 is the plain XOR of every hash. */
  lemma {:induction false} AccumulateIsXorAll(hashes: seq<uint32>, checksumType: int)
    requires checksumType != 0
    ensures Accumulate(0, checksumType, hashes) == XorAll(hashes)
  {
    AccumulateFrom(0, checksumType, hashes);
    Pow2of64();
    XorZero(XorAll(hashes));
  }

  lemma {:induction false} AccumulateFrom(start: uint64, checksumType: int, hashes: seq<uint32>)
    requires checksumType != 0
    ensures Accumulate(start, checksumType, hashes) == Xor64(start, XorAll(hashes))
    decreases |hashes|
  {
    Pow2of64();
    if |hashes| == 0 {
      XorZero(start);
    } else {
      var next := MsgChecksum(start, checksumType, hashes[0]);
      AccumulateFrom(next, checksumType, hashes[1..]);
      XorAllCons(hashes);
      XorAssoc(start, hashes[0], XorAll(hashes[1..]));
    }
  }

  /** Peeling the first hash off the XOR of all of them. */
  lemma XorAllCons(hashes: seq<uint32>)
    requires |hashes| > 0
    ensures XorAll(hashes) == Xor64(hashes[0], XorAll(hashes[1..]))
  {
    Pow2of64();
    assert hashes == [hashes[0]] + hashes[1..];
    XorAllAppend([hashes[0]], hashes[1..]);
    assert XorAll([hashes[0]]) == Xor64(0, hashes[0]);
    XorZero(hashes[0]);
  }

  /** The two ends of a transfer agree however the stream was cut into
      chunks: in hash mode the accumulated value depends only on the
      multiset of chunk hashes' XOR, so swapping two halves keeps it. */
  lemma AccumulateOrderFree(a: seq<uint32>, b: seq<uint32>, checksumType: int)
    requires checksumType != 0
    ensures Accumulate(0, checksumType, a + b) == Accumulate(0, checksumType, b + a)
  {
    AccumulateIsXorAll(a + b, checksumType);
    AccumulateIsXorAll(b + a, checksumType);
    XorAllAppend(a, b);
    XorAllAppend(b, a);
    XorComm(XorAll(a), XorAll(b));
  }
}
