/** The kl_tcp packet structures and their archive (de)serialisers.

    On the wire a packet is
      | length (4) | murmur checksum (4) | KlCommHead (14) | payload |
    and every integer is big-endian. A `Buffer` field of a body travels as a
    4-byte length followed by that many bytes. Each composite serialiser
    chains its fields with `rc ? : next`, so it stops at the first failing
    field. Serialisers return 0 on success and 1 on failure. */
module Protocol {
  import opened Bytes
  import opened Buffers

  // Opcodes carried in KlCommHead.cmdtype.
  const KL_CMD_OP: uint32 := 0
  const KL_FILE_OP: uint32 := 1
  const KL_PACK_OP: uint32 := 2
  const KL_CHECKSUM_OP: uint32 := 3
  const KL_RESP_OP: uint32 := 4
  const KL_TIMEOUT_OP: uint32 := 5
  const KL_END_OP: uint32 := 6
  const KL_QUIT_OP: uint32 := 7

  const ENCRYPT_TYPE: uint16 := 0

  /** sizeof(KlCommHead) under #pragma pack(1): 4 + 4 + 2 + 4. */
  const COMM_HEAD_LEN: uint32 := 14

  datatype CommHead = CommHead(len: uint32, cmdtype: uint32, encrypt: uint16, innseq: uint32)

  /** The byte sequences a body's `Buffer` fields carry are their readable contents. */
  datatype CmdReq = CmdReq(ratelimit: uint32, cmdReq: seq<byte>, openType: uint32, cmdMode: seq<byte>)
  datatype CommReq = CommReq(commReq: seq<byte>)
  datatype FileReq = FileReq(reqType: uint16, fileName: seq<byte>)
  datatype CommResp = CommResp(errcode: int32, errinfo: seq<byte>)

  /** The zero-filled head the KlCommHead constructor produces. */
  const ZeroHead := CommHead(0, 0, 0, 0)

  /** InitKlCommHead: the header length, the given opcode and sequence, no encryption. */
  function InitCommHead(cmdtype: uint32, innseq: uint32): (h: CommHead)
    ensures h.len == COMM_HEAD_LEN && h.encrypt == ENCRYPT_TYPE
    ensures h.cmdtype == cmdtype && h.innseq == innseq
  {
    CommHead(COMM_HEAD_LEN, cmdtype, ENCRYPT_TYPE, innseq)
  }

  // ---------------------------------------------------------------------------
  // Wire images

  /** A `Buffer` field on the wire. The length is taken into a uint32, so only
      |c| mod 2^32 bytes are announced and sent. */
  function EncodeBytes(c: seq<byte>): (w: seq<byte>)
    ensures |w| == 4 + |c| % TWO_32
  {
    EncodeU32(|c| % TWO_32) + c[..|c| % TWO_32]
  }

  function EncodeHead(h: CommHead): (w: seq<byte>)
    ensures |w| == COMM_HEAD_LEN as int
  {
    EncodeU32(h.len) + EncodeU32(h.cmdtype) + EncodeU16(h.encrypt) + EncodeU32(h.innseq)
  }

  function EncodeCmdReq(q: CmdReq): seq<byte> {
    EncodeU32(q.ratelimit) + EncodeBytes(q.cmdReq) + EncodeU32(q.openType) + EncodeBytes(q.cmdMode)
  }

  function EncodeCommReq(q: CommReq): seq<byte> {
    EncodeBytes(q.commReq)
  }

  function EncodeFileReq(q: FileReq): seq<byte> {
    EncodeU16(q.reqType) + EncodeBytes(q.fileName)
  }

  function EncodeCommResp(q: CommResp): seq<byte> {
    EncodeU32(I32ToU32(q.errcode)) + EncodeBytes(q.errinfo)
  }

  // ---------------------------------------------------------------------------
  // Primitive serialisers

  /** KlSerializeUint32 / KlSerializeInt32 / KlSerializeUint16: append the
      encoding; 1 when fewer bytes were written. */
  function SerializeRaw(oa: Buffer, w: seq<byte>, allocOk: bool): (r: (int, Buffer))
    requires oa.Valid()
    ensures r.1.Valid() && r.1.rd == oa.rd && r.1.Capacity() >= oa.Capacity()
    ensures r.0 == 0 || r.0 == 1
    ensures r.0 == 0 ==> r.1.Content() == oa.Content() + w
    ensures r.0 == 1 ==> r.1 == oa
    ensures allocOk ==> r.0 == 0
  {
    var (n, b) := Write(oa, w, allocOk);
    if n != |w| then (1, oa) else (0, b)
  }

  function SerializeU32(oa: Buffer, d: uint32, allocOk: bool): (r: (int, Buffer))
    requires oa.Valid()
    ensures r.1.Capacity() >= oa.Capacity()
    ensures r.1.Valid() && r.1.rd == oa.rd && (r.0 == 0 || r.0 == 1)
    ensures r.0 == 0 ==> r.1.Content() == oa.Content() + EncodeU32(d)
    ensures r.0 == 1 ==> r.1 == oa
    ensures allocOk ==> r.0 == 0
  {
    SerializeRaw(oa, EncodeU32(d), allocOk)
  }

  function SerializeI32(oa: Buffer, d: int32, allocOk: bool): (r: (int, Buffer))
    requires oa.Valid()
    ensures r.1.Capacity() >= oa.Capacity()
    ensures r.1.Valid() && r.1.rd == oa.rd && (r.0 == 0 || r.0 == 1)
    ensures r.0 == 0 ==> r.1.Content() == oa.Content() + EncodeU32(I32ToU32(d))
    ensures r.0 == 1 ==> r.1 == oa
    ensures allocOk ==> r.0 == 0
  {
    SerializeRaw(oa, EncodeU32(I32ToU32(d)), allocOk)
  }

  function SerializeU16(oa: Buffer, d: uint16, allocOk: bool): (r: (int, Buffer))
    requires oa.Valid()
    ensures r.1.Capacity() >= oa.Capacity()
    ensures r.1.Valid() && r.1.rd == oa.rd && (r.0 == 0 || r.0 == 1)
    ensures r.0 == 0 ==> r.1.Content() == oa.Content() + EncodeU16(d)
    ensures r.0 == 1 ==> r.1 == oa
    ensures allocOk ==> r.0 == 0
  {
    SerializeRaw(oa, EncodeU16(d), allocOk)
  }

  /** KlSerializeBuffer: the length word, then (unless empty) the bytes. */
  function SerializeBuffer(oa: Buffer, b: Buffer, allocOk: bool): (r: (int, Buffer))
    requires oa.Valid() && b.Valid()
    ensures r.1.Valid() && r.1.rd == oa.rd && (r.0 == 0 || r.0 == 1)
    ensures r.0 == 0 ==> r.1.Content() == oa.Content() + EncodeBytes(b.Content())
    ensures r.0 == 1 ==> r.1.Content() == oa.Content() || r.1.Content() == oa.Content() + EncodeU32(|b.Content()| % TWO_32)
    ensures allocOk ==> r.0 == 0
  {
    var len := |b.Content()| % TWO_32;
    var (rc, o1) := SerializeU32(oa, len, allocOk);
    if rc != 0 then (1, o1)
    else if len == 0 then
      assert b.Content()[..0] == [];
      assert o1.Content() == oa.Content() + EncodeBytes(b.Content());
      (0, o1)
    else
      var chunk := b.Content()[..len];
      var (n, o2) := Write(o1, chunk, allocOk);
      if n != len then (1, o1)
      else
        AppendTwo(oa.Content(), EncodeU32(len), chunk);
        (0, o2)
  }

  // ---------------------------------------------------------------------------
  // Primitive deserialisers

  /** KlDeserializeUint32 (and Int32, which reads the same bits): 1 with
      nothing consumed and `d` kept when fewer than 4 bytes are readable. */
  function DeserializeU32(ia: Buffer, d: uint32): (r: (int, uint32, Buffer))
    requires ia.Valid()
    ensures r.2.Valid() && (r.0 == 0 || r.0 == 1)
    ensures r.0 == 1 <==> ia.ReadableBytes() < 4
    ensures r.0 == 1 ==> r.1 == d && r.2 == ia
    ensures r.0 == 0 ==> EncodeU32(r.1) == ia.Content()[..4] && r.2.Content() == ia.Content()[4..]
  {
    var (n, out, b) := Read(ia, 4);
    if n != 4 then (1, d, ia)
    else
      EncodeDecodeU32(out);
      (0, DecodeU32(out), b)
  }

  function DeserializeI32(ia: Buffer, d: int32): (r: (int, int32, Buffer))
    requires ia.Valid()
    ensures r.2.Valid() && (r.0 == 0 || r.0 == 1)
    ensures r.0 == 1 <==> ia.ReadableBytes() < 4
    ensures r.0 == 1 ==> r.1 == d && r.2 == ia
    ensures r.0 == 0 ==> EncodeU32(I32ToU32(r.1)) == ia.Content()[..4] && r.2.Content() == ia.Content()[4..]
  {
    var (rc, u, b) := DeserializeU32(ia, I32ToU32(d));
    if rc != 0 then (1, d, ia) else (0, U32ToI32(u), b)
  }

  function DeserializeU16(ia: Buffer, d: uint16): (r: (int, uint16, Buffer))
    requires ia.Valid()
    ensures r.2.Valid() && (r.0 == 0 || r.0 == 1)
    ensures r.0 == 1 <==> ia.ReadableBytes() < 2
    ensures r.0 == 1 ==> r.1 == d && r.2 == ia
    ensures r.0 == 0 ==> EncodeU16(r.1) == ia.Content()[..2] && r.2.Content() == ia.Content()[2..]
  {
    var (n, out, b) := Read(ia, 2);
    if n != 2 then (1, d, ia)
    else
      EncodeDecodeU16(out);
      (0, DecodeU16(out), b)
  }

  /** KlDeserializeInt16: the same bits as a signed value. */
  function DeserializeI16(ia: Buffer, d: int16): (r: (int, int16, Buffer))
    requires ia.Valid()
    ensures r.2.Valid() && (r.0 == 0 || r.0 == 1)
    ensures r.0 == 1 <==> ia.ReadableBytes() < 2
    ensures r.0 == 1 ==> r.1 == d && r.2 == ia
    ensures r.0 == 0 ==> r.1 == U16ToI16(DecodeU16(ia.Content()[..2]))
  {
    var u: uint16 := if d < 0 then d + TWO_16 else d;
    var (rc, v, b) := DeserializeU16(ia, u);
    if rc != 0 then (1, d, ia)
    else
      EncodeDecodeU16(ia.Content()[..2]);
      DecodeEncodeU16(v);
      (0, U16ToI16(v), b)
  }

  /** KlDeserializeBuffer: reads the length word, then moves that many bytes
      into `b` through `b->Write(ia, len)`, which takes only what is readable.
      So a short archive still loses its remaining bytes to `b` before 1 is
      returned. The count is compared as a uint32, as in the source. */
  function DeserializeBuffer(ia: Buffer, b: Buffer, allocOk: bool): (r: (int, Buffer, Buffer))
    requires ia.Valid() && b.Valid()
    ensures r.1.Valid() && r.2.Valid() && (r.0 == 0 || r.0 == 1)
    ensures ia.ReadableBytes() < 4 ==> r == (1, b, ia)
  {
    var (rc, len, i1) := DeserializeU32(ia, 0);
    if rc != 0 then (1, b, ia)
    else if len == 0 then (0, b, i1)
    else
      var (n, b2, i2) := WriteFrom(b, i1, len, allocOk);
      if n % TWO_32 != len then (1, b2, i2) else (0, b2, i2)
  }

  /** The length word announces `len`; with memory available `b` receives
      exactly `len` bytes when they are there, and otherwise swallows what
      remains of the archive before 1 is returned. */
  lemma DeserializeBufferSpec(ia: Buffer, b: Buffer, allocOk: bool)
    requires ia.Valid() && b.Valid() && ia.ReadableBytes() >= 4 && allocOk
    ensures var len := DecodeU32(ia.Content()[..4]);
      var avail := ia.Content()[4..];
      var (rc, b', ia') := DeserializeBuffer(ia, b, allocOk);
      (len <= |avail| ==> rc == 0 && b'.Content() == b.Content() + avail[..len] && ia'.Content() == avail[len..])
      && (len > |avail| ==> rc == 1 && b'.Content() == b.Content() + avail && ia'.Content() == [])
  {
    var (rc0, len, i1) := DeserializeU32(ia, 0);
    DecodeEncodeU32(len);
    var avail := ia.Content()[4..];
    assert len == DecodeU32(ia.Content()[..4]);
    assert i1.Content() == avail;
    if len == 0 {
      assert DeserializeBuffer(ia, b, allocOk) == (0, b, i1);
      assert avail[..0] == [] && avail[0..] == avail;
      assert b.Content() + [] == b.Content();
    } else {
      DeserializeBufferMoves(b, i1, len);
    }
  }

  /** The non-empty case: `WriteFrom` with memory available moves `min(len, readable)` bytes. */
  lemma DeserializeBufferMoves(b: Buffer, i1: Buffer, len: uint32)
    requires b.Valid() && i1.Valid() && len > 0
    ensures var avail := i1.Content();
      var (n, b2, i2) := WriteFrom(b, i1, len, true);
      (len <= |avail| ==> n % TWO_32 == len && b2.Content() == b.Content() + avail[..len] && i2.Content() == avail[len..])
      && (len > |avail| ==> n % TWO_32 != len && b2.Content() == b.Content() + avail && i2.Content() == [])
  {
    var avail := i1.Content();
    var r := WriteFrom(b, i1, len, true);
    var m := if len > |avail| then |avail| else len;
    assert r.0 == m && r.1.Content() == b.Content() + avail[..m] && r.2.Content() == avail[m..];
    if len > |avail| {
      assert avail[..|avail|] == avail;
      assert m % TWO_32 != len;
    } else {
      assert m % TWO_32 == len;
    }
  }

  // ---------------------------------------------------------------------------
  // Composite serialisers

  lemma AppendTwo<T>(p: seq<T>, a: seq<T>, b: seq<T>)
    ensures p + a + b == p + (a + b)
  {
  }

  lemma AppendFour<T>(p: seq<T>, a: seq<T>, b: seq<T>, c: seq<T>, d: seq<T>)
    ensures p + a + b + c + d == p + (a + b + c + d)
  {
  }

  /** KlSerializeCommHead: len, cmdtype, encrypt, innseq. */
  function SerializeCommHead(oa: Buffer, h: CommHead, allocOk: bool): (r: (int, Buffer))
    requires oa.Valid()
    ensures r.1.Capacity() >= oa.Capacity()
    ensures r.1.Valid() && r.1.rd == oa.rd && (r.0 == 0 || r.0 == 1)
    ensures r.0 == 0 ==> r.1.Content() == oa.Content() + EncodeHead(h)
    ensures allocOk ==> r.0 == 0
  {
    var (r1, o1) := SerializeU32(oa, h.len, allocOk);
    if r1 != 0 then (r1, o1) else
    var (r2, o2) := SerializeU32(o1, h.cmdtype, allocOk);
    if r2 != 0 then (r2, o2) else
    var (r3, o3) := SerializeU16(o2, h.encrypt, allocOk);
    if r3 != 0 then (r3, o3) else
    var (r4, o4) := SerializeU32(o3, h.innseq, allocOk);
    if r4 != 0 then (r4, o4) else
    AppendFour(oa.Content(), EncodeU32(h.len), EncodeU32(h.cmdtype), EncodeU16(h.encrypt), EncodeU32(h.innseq));
    (r4, o4)
  }

  /** On failure only whole leading fields were written: a prefix of the head
      image ending at a field boundary. */
  lemma SerializeCommHeadFailFast(oa: Buffer, h: CommHead, allocOk: bool)
    requires oa.Valid()
    ensures var (rc, o) := SerializeCommHead(oa, h, allocOk);
      var k := |o.Content()| - |oa.Content()|;
      rc != 0 ==> k in {0, 4, 8, 10} && o.Content() == oa.Content() + EncodeHead(h)[..k]
  {
    var w := EncodeHead(h);
    var (r1, o1) := SerializeU32(oa, h.len, allocOk);
    if r1 != 0 {
      assert oa.Content() + w[..0] == oa.Content();
    } else {
      assert w[..4] == EncodeU32(h.len);
      HeadTailFailFast(oa, o1, h, allocOk);
    }
  }

  /** The part of the fail-fast argument after the first field was written. */
  lemma HeadTailFailFast(oa: Buffer, o1: Buffer, h: CommHead, allocOk: bool)
    requires oa.Valid() && o1.Valid() && o1.Content() == oa.Content() + EncodeU32(h.len)
    ensures var (r2, o2) := SerializeU32(o1, h.cmdtype, allocOk);
      var (r3, o3) := SerializeU16(o2, h.encrypt, allocOk);
      var w := EncodeHead(h);
      (r2 != 0 ==> o2.Content() == oa.Content() + w[..4]) &&
      (r2 == 0 && r3 != 0 ==> o3.Content() == oa.Content() + w[..8]) &&
      (r2 == 0 && r3 == 0 ==> o3.Content() == oa.Content() + w[..10])
  {
    var w := EncodeHead(h);
    assert w[..4] == EncodeU32(h.len);
    assert w[..8] == EncodeU32(h.len) + EncodeU32(h.cmdtype);
    assert w[..10] == EncodeU32(h.len) + EncodeU32(h.cmdtype) + EncodeU16(h.encrypt);
  }

  /** KlDeserializeCommHead into `oh`: stops at the first field that does not fit. */
  function DeserializeCommHead(ia: Buffer, oh: CommHead): (r: (int, CommHead, Buffer))
    requires ia.Valid()
    ensures r.2.Valid() && (r.0 == 0 || r.0 == 1)
    ensures r.0 == 1 <==> ia.ReadableBytes() < COMM_HEAD_LEN as int
  {
    var (r1, v1, i1) := DeserializeU32(ia, oh.len);
    if r1 != 0 then (r1, oh, i1) else
    var (r2, v2, i2) := DeserializeU32(i1, oh.cmdtype);
    if r2 != 0 then (r2, oh.(len := v1), i2) else
    var (r3, v3, i3) := DeserializeU16(i2, oh.encrypt);
    if r3 != 0 then (r3, oh.(len := v1, cmdtype := v2), i3) else
    var (r4, v4, i4) := DeserializeU32(i3, oh.innseq);
    (r4, CommHead(v1, v2, v3, v4), i4)
  }

  /** The head round trip: 14 bytes out, the same head back, the rest untouched. */
  lemma CommHeadRoundTrip(ia: Buffer, h: CommHead, oh: CommHead, rest: seq<byte>)
    requires ia.Valid() && ia.Content() == EncodeHead(h) + rest
    ensures var (rc, h', ia') := DeserializeCommHead(ia, oh);
      rc == 0 && h' == h && ia'.Content() == rest
  {
    var t2 := EncodeU16(h.encrypt) + (EncodeU32(h.innseq) + rest);
    assert ia.Content() == EncodeU32(h.len) + (EncodeU32(h.cmdtype) + t2);
    U32FieldRoundTrip(ia, h.len, EncodeU32(h.cmdtype) + t2, oh.len);
    var (r1, v1, i1) := DeserializeU32(ia, oh.len);
    U32FieldRoundTrip(i1, h.cmdtype, t2, oh.cmdtype);
    var (r2, v2, i2) := DeserializeU32(i1, oh.cmdtype);
    HeadTailRoundTrip(i2, h, oh, rest);
  }

  /** The last two head fields: encrypt, then innseq. */
  lemma HeadTailRoundTrip(i2: Buffer, h: CommHead, oh: CommHead, rest: seq<byte>)
    requires i2.Valid() && i2.Content() == EncodeU16(h.encrypt) + (EncodeU32(h.innseq) + rest)
    ensures var (r3, v3, i3) := DeserializeU16(i2, oh.encrypt);
      r3 == 0 && v3 == h.encrypt &&
      var (r4, v4, i4) := DeserializeU32(i3, oh.innseq);
      r4 == 0 && v4 == h.innseq && i4.Content() == rest
  {
    U16FieldRoundTrip(i2, h.encrypt, EncodeU32(h.innseq) + rest, oh.encrypt);
    var (r3, v3, i3) := DeserializeU16(i2, oh.encrypt);
    U32FieldRoundTrip(i3, h.innseq, rest, oh.innseq);
  }


  // ---------------------------------------------------------------------------
  // Field-level round trips

  lemma U32FieldRoundTrip(ia: Buffer, x: uint32, rest: seq<byte>, d: uint32)
    requires ia.Valid() && ia.Content() == EncodeU32(x) + rest
    ensures var (rc, v, ia') := DeserializeU32(ia, d);
      rc == 0 && v == x && ia'.Content() == rest
  {
    var (rc, v, ia') := DeserializeU32(ia, d);
    assert ia.Content()[..4] == EncodeU32(x);
    assert ia.Content()[4..] == rest;
    DecodeEncodeU32(x);
    DecodeEncodeU32(v);
  }

  lemma I32FieldRoundTrip(ia: Buffer, x: int32, rest: seq<byte>, d: int32)
    requires ia.Valid() && ia.Content() == EncodeU32(I32ToU32(x)) + rest
    ensures var (rc, v, ia') := DeserializeI32(ia, d);
      rc == 0 && v == x && ia'.Content() == rest
  {
    U32FieldRoundTrip(ia, I32ToU32(x), rest, I32ToU32(d));
  }

  lemma U16FieldRoundTrip(ia: Buffer, x: uint16, rest: seq<byte>, d: uint16)
    requires ia.Valid() && ia.Content() == EncodeU16(x) + rest
    ensures var (rc, v, ia') := DeserializeU16(ia, d);
      rc == 0 && v == x && ia'.Content() == rest
  {
    var (rc, v, ia') := DeserializeU16(ia, d);
    assert ia.Content()[..2] == EncodeU16(x);
    assert ia.Content()[2..] == rest;
    DecodeEncodeU16(x);
    DecodeEncodeU16(v);
  }

  lemma BufferFieldRoundTrip(ia: Buffer, c: seq<byte>, rest: seq<byte>, b: Buffer)
    requires ia.Valid() && b.Valid() && b.Content() == [] && |c| < TWO_32
    requires ia.Content() == EncodeBytes(c) + rest
    ensures var (rc, b', ia') := DeserializeBuffer(ia, b, true);
      rc == 0 && b'.Content() == c && ia'.Content() == rest
  {
    assert c[..|c| % TWO_32] == c;
    assert ia.Content()[..4] == EncodeU32(|c|);
    assert ia.Content()[4..] == c + rest;
    DecodeEncodeU32(|c|);
    DeserializeBufferSpec(ia, b, true);
    assert (c + rest)[..|c|] == c && (c + rest)[|c|..] == rest;
  }

  // ---------------------------------------------------------------------------
  // Bodies as the C structs hold them: integers and Buffers.

  datatype CmdReqStruct = CmdReqStruct(ratelimit: uint32, cmdReq: Buffer, openType: uint32, cmdMode: Buffer) {
    predicate Valid() { cmdReq.Valid() && cmdMode.Valid() }
    function View(): CmdReq requires Valid() { CmdReq(ratelimit, cmdReq.Content(), openType, cmdMode.Content()) }
  }

  datatype CommReqStruct = CommReqStruct(commReq: Buffer) {
    predicate Valid() { commReq.Valid() }
    function View(): CommReq requires Valid() { CommReq(commReq.Content()) }
  }

  datatype FileReqStruct = FileReqStruct(reqType: uint16, fileName: Buffer) {
    predicate Valid() { fileName.Valid() }
    function View(): FileReq requires Valid() { FileReq(reqType, fileName.Content()) }
  }

  datatype CommRespStruct = CommRespStruct(errcode: int32, errinfo: Buffer) {
    predicate Valid() { errinfo.Valid() }
    function View(): CommResp requires Valid() { CommResp(errcode, errinfo.Content()) }
  }

  /** KlSerializeCmdReqBody: ratelimit, cmd_req, open_type, cmd_mode. */
  function SerializeCmdReqBody(oa: Buffer, q: CmdReqStruct, allocOk: bool): (r: (int, Buffer))
    requires oa.Valid() && q.Valid()
    ensures r.1.Valid() && r.1.rd == oa.rd && (r.0 == 0 || r.0 == 1)
    ensures r.0 == 0 ==> r.1.Content() == oa.Content() + EncodeCmdReq(q.View())
    ensures allocOk ==> r.0 == 0
  {
    var (r1, o1) := SerializeU32(oa, q.ratelimit, allocOk);
    if r1 != 0 then (r1, o1) else
    var (r2, o2) := SerializeBuffer(o1, q.cmdReq, allocOk);
    if r2 != 0 then (r2, o2) else
    var (r3, o3) := SerializeU32(o2, q.openType, allocOk);
    if r3 != 0 then (r3, o3) else
    var (r4, o4) := SerializeBuffer(o3, q.cmdMode, allocOk);
    if r4 != 0 then (r4, o4) else
    AppendFour(oa.Content(), EncodeU32(q.ratelimit), EncodeBytes(q.cmdReq.Content()),
               EncodeU32(q.openType), EncodeBytes(q.cmdMode.Content()));
    (0, o4)
  }

  /** A failing Buffer field leaves nothing or only its length word written. */
  lemma SerializeBufferFailFast(oa: Buffer, b: Buffer, allocOk: bool)
    requires oa.Valid() && b.Valid()
    ensures var (rc, o) := SerializeBuffer(oa, b, allocOk);
      var k := |o.Content()| - |oa.Content()|;
      rc != 0 ==> k in {0, 4} && o.Content() == oa.Content() + EncodeBytes(b.Content())[..k]
  {
    var w := EncodeBytes(b.Content());
    assert w[..4] == EncodeU32(|b.Content()| % TWO_32);
    assert oa.Content() + w[..0] == oa.Content();
  }

  /** Writing `a` then a prefix of `b` writes a prefix of `a + b`. */
  lemma PrefixAfter(p: seq<byte>, a: seq<byte>, b: seq<byte>, j: nat)
    requires j <= |b|
    ensures p + a + b[..j] == p + (a + b)[..|a| + j]
  {
    assert (a + b)[..|a| + j] == a + b[..j];
  }

  /** On failure the command request body is written up to a field or
      length-word boundary: nothing, ratelimit, its length word, the command,
      open_type, or the mode's length word. */
  lemma SerializeCmdReqBodyFailFast(oa: Buffer, q: CmdReqStruct, allocOk: bool)
    requires oa.Valid() && q.Valid()
    ensures var (rc, o) := SerializeCmdReqBody(oa, q, allocOk);
      var k := |o.Content()| - |oa.Content()|;
      var n := |EncodeBytes(q.cmdReq.Content())|;
      rc != 0 ==> k in {0, 4, 8, 4 + n, 8 + n, 12 + n} && o.Content() == oa.Content() + EncodeCmdReq(q.View())[..k]
  {
    var w := EncodeCmdReq(q.View());
    var (r1, o1) := SerializeU32(oa, q.ratelimit, allocOk);
    if r1 != 0 {
      assert SerializeCmdReqBody(oa, q, allocOk) == (r1, o1);
      assert oa.Content() + w[..0] == oa.Content();
      return;
    }
    var (r2, o2) := SerializeBuffer(o1, q.cmdReq, allocOk);
    CmdReqHeadFailFast(oa, o1, q, allocOk);
    if r2 != 0 {
      assert SerializeCmdReqBody(oa, q, allocOk) == (r2, o2);
      return;
    }
    var (r3, o3) := SerializeU32(o2, q.openType, allocOk);
    if r3 != 0 {
      assert SerializeCmdReqBody(oa, q, allocOk) == (r3, o3);
      return;
    }
    CmdReqOpenTypeWritten(oa, o2, q, allocOk);
    var (r4, o4) := SerializeBuffer(o3, q.cmdMode, allocOk);
    assert SerializeCmdReqBody(oa, q, allocOk) == (r4, o4);
    CmdReqTailFailFast(oa, o3, q, allocOk);
  }

  /** ratelimit written: a failing command field stops after ratelimit or
      after its length word; a written one leaves the body up to open_type. */
  lemma CmdReqHeadFailFast(oa: Buffer, o1: Buffer, q: CmdReqStruct, allocOk: bool)
    requires oa.Valid() && o1.Valid() && q.Valid()
    requires o1.Content() == oa.Content() + EncodeU32(q.ratelimit)
    ensures var (r2, o2) := SerializeBuffer(o1, q.cmdReq, allocOk);
      var w := EncodeCmdReq(q.View());
      var n := |EncodeBytes(q.cmdReq.Content())|;
      var k := |o2.Content()| - |oa.Content()|;
      (r2 != 0 ==> k in {4, 8} && o2.Content() == oa.Content() + w[..k]) &&
      (r2 == 0 ==> o2.Content() == oa.Content() + w[..4 + n])
  {
    var e1, e2 := EncodeU32(q.ratelimit), EncodeBytes(q.cmdReq.Content());
    var t := EncodeU32(q.openType) + EncodeBytes(q.cmdMode.Content());
    var w := EncodeCmdReq(q.View());
    assert w == e1 + (e2 + t);
    var (r2, o2) := SerializeBuffer(o1, q.cmdReq, allocOk);
    SerializeBufferFailFast(o1, q.cmdReq, allocOk);
    if r2 != 0 {
      var j := |o2.Content()| - |o1.Content()|;
      PrefixAfter(oa.Content(), e1, e2 + t, j);
      assert (e2 + t)[..j] == e2[..j];
    } else {
      PrefixAfter(oa.Content(), e1, e2 + t, |e2|);
      assert (e2 + t)[..|e2|] == e2;
    }
  }

  /** The command written, a written open_type extends the prefix by it. */
  lemma CmdReqOpenTypeWritten(oa: Buffer, o2: Buffer, q: CmdReqStruct, allocOk: bool)
    requires oa.Valid() && o2.Valid() && q.Valid()
    requires o2.Content() == oa.Content() + EncodeCmdReq(q.View())[..4 + |EncodeBytes(q.cmdReq.Content())|]
    ensures var (r3, o3) := SerializeU32(o2, q.openType, allocOk);
      r3 == 0 ==> o3.Content() == oa.Content() + EncodeCmdReq(q.View())[..8 + |EncodeBytes(q.cmdReq.Content())|]
  {
    var h := EncodeU32(q.ratelimit) + EncodeBytes(q.cmdReq.Content());
    var e3 := EncodeU32(q.openType);
    var w := EncodeCmdReq(q.View());
    assert w == h + e3 + EncodeBytes(q.cmdMode.Content());
    assert w[..|h|] == h && w[..|h| + 4] == h + e3;
  }

  /** open_type written: a failing mode field stops after open_type or after
      the mode's length word. */
  lemma CmdReqTailFailFast(oa: Buffer, o3: Buffer, q: CmdReqStruct, allocOk: bool)
    requires oa.Valid() && o3.Valid() && q.Valid()
    requires o3.Content() == oa.Content() + EncodeCmdReq(q.View())[..8 + |EncodeBytes(q.cmdReq.Content())|]
    ensures var (r4, o4) := SerializeBuffer(o3, q.cmdMode, allocOk);
      var n := |EncodeBytes(q.cmdReq.Content())|;
      var k := |o4.Content()| - |oa.Content()|;
      r4 != 0 ==> k in {8 + n, 12 + n} && o4.Content() == oa.Content() + EncodeCmdReq(q.View())[..k]
  {
    var h := EncodeU32(q.ratelimit) + EncodeBytes(q.cmdReq.Content()) + EncodeU32(q.openType);
    var e4 := EncodeBytes(q.cmdMode.Content());
    var w := EncodeCmdReq(q.View());
    assert w == h + e4;
    assert w[..|h|] == h;
    var (r4, o4) := SerializeBuffer(o3, q.cmdMode, allocOk);
    SerializeBufferFailFast(o3, q.cmdMode, allocOk);
    if r4 != 0 {
      var j := |o4.Content()| - |o3.Content()|;
      assert w[..|h| + j] == h + e4[..j];
    }
  }

  /** KlDeserializeCmdReqBody into `q`. */
  function DeserializeCmdReqBody(ia: Buffer, q: CmdReqStruct, allocOk: bool): (r: (int, CmdReqStruct, Buffer))
    requires ia.Valid() && q.Valid()
    ensures r.1.Valid() && r.2.Valid() && (r.0 == 0 || r.0 == 1)
    ensures ia.ReadableBytes() < 4 ==> r == (1, q, ia)
  {
    var (r1, v1, i1) := DeserializeU32(ia, q.ratelimit);
    if r1 != 0 then (r1, q, i1) else
    var (r2, b2, i2) := DeserializeBuffer(i1, q.cmdReq, allocOk);
    if r2 != 0 then (r2, q.(ratelimit := v1, cmdReq := b2), i2) else
    var (r3, v3, i3) := DeserializeU32(i2, q.openType);
    if r3 != 0 then (r3, q.(ratelimit := v1, cmdReq := b2), i3) else
    var (r4, b4, i4) := DeserializeBuffer(i3, q.cmdMode, allocOk);
    (r4, CmdReqStruct(v1, b2, v3, b4), i4)
  }

  predicate EmptyFields(q: CmdReqStruct) {
    q.Valid() && q.cmdReq.Content() == [] && q.cmdMode.Content() == []
  }

  /** The second half of a CmdReq body: open_type then cmd_mode. */
  lemma CmdReqTailRoundTrip(i2: Buffer, m: CmdReq, q: CmdReqStruct, rest: seq<byte>)
    requires i2.Valid() && EmptyFields(q) && |m.cmdMode| < TWO_32
    requires i2.Content() == EncodeU32(m.openType) + (EncodeBytes(m.cmdMode) + rest)
    ensures var (r3, v3, i3) := DeserializeU32(i2, q.openType);
      r3 == 0 && v3 == m.openType &&
      var (r4, b4, i4) := DeserializeBuffer(i3, q.cmdMode, true);
      r4 == 0 && b4.Content() == m.cmdMode && i4.Content() == rest
  {
    U32FieldRoundTrip(i2, m.openType, EncodeBytes(m.cmdMode) + rest, q.openType);
    var (r3, v3, i3) := DeserializeU32(i2, q.openType);
    BufferFieldRoundTrip(i3, m.cmdMode, rest, q.cmdMode);
  }

  /** CmdReq round trip into freshly constructed (empty) Buffers. */
  lemma CmdReqRoundTrip(ia: Buffer, m: CmdReq, q: CmdReqStruct, rest: seq<byte>)
    requires ia.Valid() && EmptyFields(q)
    requires |m.cmdReq| < TWO_32 && |m.cmdMode| < TWO_32
    requires ia.Content() == EncodeCmdReq(m) + rest
    ensures var (rc, q', ia') := DeserializeCmdReqBody(ia, q, true);
      rc == 0 && q'.View() == m && ia'.Content() == rest
  {
    var e1, e2, e3, e4 := EncodeU32(m.ratelimit), EncodeBytes(m.cmdReq), EncodeU32(m.openType), EncodeBytes(m.cmdMode);
    var tail := e3 + (e4 + rest);
    assert ia.Content() == e1 + (e2 + tail);
    U32FieldRoundTrip(ia, m.ratelimit, e2 + tail, q.ratelimit);
    var (r1, v1, i1) := DeserializeU32(ia, q.ratelimit);
    BufferFieldRoundTrip(i1, m.cmdReq, tail, q.cmdReq);
    var (r2, b2, i2) := DeserializeBuffer(i1, q.cmdReq, true);
    CmdReqTailRoundTrip(i2, m, q, rest);
  }

  /** KlSerializeCommReqBody: one Buffer. */
  function SerializeCommReqBody(oa: Buffer, q: CommReqStruct, allocOk: bool): (r: (int, Buffer))
    requires oa.Valid() && q.Valid()
    ensures r.1.Valid() && r.1.rd == oa.rd && (r.0 == 0 || r.0 == 1)
    ensures r.0 == 0 ==> r.1.Content() == oa.Content() + EncodeCommReq(q.View())
    ensures allocOk ==> r.0 == 0
  {
    SerializeBuffer(oa, q.commReq, allocOk)
  }

  function DeserializeCommReqBody(ia: Buffer, q: CommReqStruct, allocOk: bool): (r: (int, CommReqStruct, Buffer))
    requires ia.Valid() && q.Valid()
    ensures r.1.Valid() && r.2.Valid() && (r.0 == 0 || r.0 == 1)
    ensures ia.ReadableBytes() < 4 ==> r == (1, q, ia)
  {
    var (rc, b, i) := DeserializeBuffer(ia, q.commReq, allocOk);
    (rc, CommReqStruct(b), i)
  }

  lemma CommReqRoundTrip(ia: Buffer, m: CommReq, q: CommReqStruct, rest: seq<byte>)
    requires ia.Valid() && q.Valid() && q.commReq.Content() == [] && |m.commReq| < TWO_32
    requires ia.Content() == EncodeCommReq(m) + rest
    ensures var (rc, q', ia') := DeserializeCommReqBody(ia, q, true);
      rc == 0 && q'.View() == m && ia'.Content() == rest
  {
    BufferFieldRoundTrip(ia, m.commReq, rest, q.commReq);
  }

  /** KlSerializeFileReqBody: uint16 req_type, then file_name. */
  function SerializeFileReqBody(oa: Buffer, q: FileReqStruct, allocOk: bool): (r: (int, Buffer))
    requires oa.Valid() && q.Valid()
    ensures r.1.Valid() && r.1.rd == oa.rd && (r.0 == 0 || r.0 == 1)
    ensures r.0 == 0 ==> r.1.Content() == oa.Content() + EncodeFileReq(q.View())
    ensures allocOk ==> r.0 == 0
  {
    var (r1, o1) := SerializeU16(oa, q.reqType, allocOk);
    if r1 != 0 then (r1, o1) else
    var (r2, o2) := SerializeBuffer(o1, q.fileName, allocOk);
    if r2 != 0 then (r2, o2) else
    AppendTwo(oa.Content(), EncodeU16(q.reqType), EncodeBytes(q.fileName.Content()));
    (0, o2)
  }

  /** On failure the file request body is written up to a field or
      length-word boundary: nothing, req_type, or file_name's length word. */
  lemma SerializeFileReqBodyFailFast(oa: Buffer, q: FileReqStruct, allocOk: bool)
    requires oa.Valid() && q.Valid()
    ensures var (rc, o) := SerializeFileReqBody(oa, q, allocOk);
      var k := |o.Content()| - |oa.Content()|;
      rc != 0 ==> k in {0, 2, 6} && o.Content() == oa.Content() + EncodeFileReq(q.View())[..k]
  {
    var e1, e2 := EncodeU16(q.reqType), EncodeBytes(q.fileName.Content());
    var w := EncodeFileReq(q.View());
    var (r1, o1) := SerializeU16(oa, q.reqType, allocOk);
    if r1 != 0 {
      assert oa.Content() + w[..0] == oa.Content();
    } else {
      var (r2, o2) := SerializeBuffer(o1, q.fileName, allocOk);
      SerializeBufferFailFast(o1, q.fileName, allocOk);
      if r2 != 0 {
        var j := |o2.Content()| - |o1.Content()|;
        PrefixAfter(oa.Content(), e1, e2, j);
      }
    }
  }

  function DeserializeFileReqBody(ia: Buffer, q: FileReqStruct, allocOk: bool): (r: (int, FileReqStruct, Buffer))
    requires ia.Valid() && q.Valid()
    ensures r.1.Valid() && r.2.Valid() && (r.0 == 0 || r.0 == 1)
    ensures ia.ReadableBytes() < 2 ==> r == (1, q, ia)
  {
    var (r1, v1, i1) := DeserializeU16(ia, q.reqType);
    if r1 != 0 then (r1, q, i1) else
    var (r2, b2, i2) := DeserializeBuffer(i1, q.fileName, allocOk);
    (r2, FileReqStruct(v1, b2), i2)
  }

  lemma FileReqRoundTrip(ia: Buffer, m: FileReq, q: FileReqStruct, rest: seq<byte>)
    requires ia.Valid() && q.Valid() && q.fileName.Content() == [] && |m.fileName| < TWO_32
    requires ia.Content() == EncodeFileReq(m) + rest
    ensures var (rc, q', ia') := DeserializeFileReqBody(ia, q, true);
      rc == 0 && q'.View() == m && ia'.Content() == rest
  {
    assert ia.Content() == EncodeU16(m.reqType) + (EncodeBytes(m.fileName) + rest);
    U16FieldRoundTrip(ia, m.reqType, EncodeBytes(m.fileName) + rest, q.reqType);
    var (r1, v1, i1) := DeserializeU16(ia, q.reqType);
    BufferFieldRoundTrip(i1, m.fileName, rest, q.fileName);
  }

  /** KlSerializeRespCommBody: int32 errcode, then errinfo. */
  function SerializeRespCommBody(oa: Buffer, q: CommRespStruct, allocOk: bool): (r: (int, Buffer))
    requires oa.Valid() && q.Valid()
    ensures r.1.Valid() && r.1.rd == oa.rd && (r.0 == 0 || r.0 == 1)
    ensures r.0 == 0 ==> r.1.Content() == oa.Content() + EncodeCommResp(q.View())
    ensures allocOk ==> r.0 == 0
  {
    var (r1, o1) := SerializeI32(oa, q.errcode, allocOk);
    if r1 != 0 then (r1, o1) else
    var (r2, o2) := SerializeBuffer(o1, q.errinfo, allocOk);
    if r2 != 0 then (r2, o2) else
    AppendTwo(oa.Content(), EncodeU32(I32ToU32(q.errcode)), EncodeBytes(q.errinfo.Content()));
    (0, o2)
  }

  /** On failure the reply body is written up to a field or length-word
      boundary: nothing, the error code, or errinfo's length word. */
  lemma SerializeRespCommBodyFailFast(oa: Buffer, q: CommRespStruct, allocOk: bool)
    requires oa.Valid() && q.Valid()
    ensures var (rc, o) := SerializeRespCommBody(oa, q, allocOk);
      var k := |o.Content()| - |oa.Content()|;
      rc != 0 ==> k in {0, 4, 8} && o.Content() == oa.Content() + EncodeCommResp(q.View())[..k]
  {
    var e1, e2 := EncodeU32(I32ToU32(q.errcode)), EncodeBytes(q.errinfo.Content());
    var w := EncodeCommResp(q.View());
    var (r1, o1) := SerializeI32(oa, q.errcode, allocOk);
    if r1 != 0 {
      assert oa.Content() + w[..0] == oa.Content();
    } else {
      var (r2, o2) := SerializeBuffer(o1, q.errinfo, allocOk);
      SerializeBufferFailFast(o1, q.errinfo, allocOk);
      if r2 != 0 {
        var j := |o2.Content()| - |o1.Content()|;
        PrefixAfter(oa.Content(), e1, e2, j);
      }
    }
  }

  function DeserializeRespCommBody(ia: Buffer, q: CommRespStruct, allocOk: bool): (r: (int, CommRespStruct, Buffer))
    requires ia.Valid() && q.Valid()
    ensures r.1.Valid() && r.2.Valid() && (r.0 == 0 || r.0 == 1)
    ensures ia.ReadableBytes() < 4 ==> r == (1, q, ia)
  {
    var (r1, v1, i1) := DeserializeI32(ia, q.errcode);
    if r1 != 0 then (r1, q, i1) else
    var (r2, b2, i2) := DeserializeBuffer(i1, q.errinfo, allocOk);
    (r2, CommRespStruct(v1, b2), i2)
  }

  lemma RespRoundTrip(ia: Buffer, m: CommResp, q: CommRespStruct, rest: seq<byte>)
    requires ia.Valid() && q.Valid() && q.errinfo.Content() == [] && |m.errinfo| < TWO_32
    requires ia.Content() == EncodeCommResp(m) + rest
    ensures var (rc, q', ia') := DeserializeRespCommBody(ia, q, true);
      rc == 0 && q'.View() == m && ia'.Content() == rest
  {
    assert ia.Content() == EncodeU32(I32ToU32(m.errcode)) + (EncodeBytes(m.errinfo) + rest);
    I32FieldRoundTrip(ia, m.errcode, EncodeBytes(m.errinfo) + rest, q.errcode);
    var (r1, v1, i1) := DeserializeI32(ia, q.errcode);
    BufferFieldRoundTrip(i1, m.errinfo, rest, q.errinfo);
  }

  /** Serialising a head into an archive and deserialising it back yields the head. */
  lemma CommHeadSerializeRoundTrip(oa: Buffer, h: CommHead, allocOk: bool)
    requires oa.Valid() && oa.Content() == []
    ensures var (rc, o) := SerializeCommHead(oa, h, allocOk);
      rc == 0 ==> var (rc', h', rest) := DeserializeCommHead(o, ZeroHead);
        rc' == 0 && h' == h && rest.Content() == []
  {
    var (rc, o) := SerializeCommHead(oa, h, allocOk);
    if rc == 0 {
      assert o.Content() == EncodeHead(h) + [];
      CommHeadRoundTrip(o, h, ZeroHead, []);
    }
  }
}
