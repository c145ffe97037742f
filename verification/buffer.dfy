/** The index-based dynamic byte buffer of the kl_tcp protocol.

    Storage is split into three regions:
      already-read bytes [0, rd), readable bytes [rd, wr), writable bytes [wr, capacity).
    The model is an immutable value: every mutating member returns the new
    buffer. `malloc` success is a parameter (`allocOk`); fresh memory that the
    source leaves uninitialised is modelled as zero bytes, and no contract
    depends on its contents. */
module Buffers {
  import opened Bytes

  const BUFFER_MAX_READ: nat := 8192
  const DEFAULT_BUFFER_SIZE: nat := 4096

  datatype Buffer = Buffer(data: seq<byte>, rd: nat, wr: nat) {

    /** The documented invariant 0 <= readerIndex <= writerIndex <= capacity. */
    predicate Valid() {
      rd <= wr <= |data|
    }

    function Capacity(): nat { |data| }

    predicate Readable() { wr > rd }

    predicate Writeable() { |data| > wr }

    function ReadableBytes(): (n: nat)
      ensures Valid() ==> n == wr - rd
      ensures n > 0 <==> Readable()
    {
      if Readable() then wr - rd else 0
    }

    function WriteableBytes(): (n: nat)
      ensures Valid() ==> n == |data| - wr
      ensures n > 0 <==> Writeable()
    {
      if Writeable() then |data| - wr else 0
    }

    /** The readable region, what `AsString` and `length` describe. */
    function Content(): (c: seq<byte>)
      requires Valid()
      ensures |c| == ReadableBytes()
    {
      data[rd..wr]
    }
  }

  function Zeros(n: nat): (z: seq<byte>)
    ensures |z| == n
    ensures forall i :: 0 <= i < n ==> z[i] == 0
  {
    seq(n, _ => 0)
  }

  /** The doubling loop of EnsureWritableBytes: the first `c * 2^k`
      that reaches `min`. */
  function GrownCapacity(c: nat, min: nat): (r: nat)
    requires c > 0
    ensures r >= min && r >= c
    ensures exists k: nat :: r == c * Pow2(k)
    ensures r > c ==> r / 2 < min && r % 2 == 0
    decreases min - c
  {
    if c >= min then
      assert c == c * Pow2(0);
      c
    else
      var r := GrownCapacity(2 * c, min);
      var k: nat :| r == 2 * c * Pow2(k);
      assert r == c * Pow2(k + 1);
      r
  }

  /** A new buffer: the default constructor asks for 4096 writable bytes. */
  function NewBuffer(allocOk: bool): (b: Buffer)
    ensures b.Valid() && b.rd == 0 && b.wr == 0
    ensures b.Capacity() == if allocOk then DEFAULT_BUFFER_SIZE else 0
  {
    EnsureWritableBytes(Buffer([], 0, 0), DEFAULT_BUFFER_SIZE, allocOk).1
  }

  /** EnsureWritableBytes(min): succeeds at once when room suffices; otherwise
      grows to the first doubling of the capacity (4096 when empty) that holds
      wr + min bytes, keeping every stored byte and both indices. */
  function EnsureWritableBytes(b: Buffer, min: nat, allocOk: bool): (r: (bool, Buffer))
    requires b.Valid()
    ensures r.1.Valid() && r.1.rd == b.rd && r.1.wr == b.wr
    ensures |r.1.data| >= |b.data| && r.1.data[..|b.data|] == b.data
    ensures r.0 <==> b.WriteableBytes() >= min || allocOk
    ensures r.0 ==> r.1.WriteableBytes() >= min
    ensures b.WriteableBytes() >= min || !allocOk ==> r.1 == b
    ensures b.WriteableBytes() < min && allocOk ==>
      r.1.Capacity() == GrownCapacity(if b.Capacity() == 0 then DEFAULT_BUFFER_SIZE else b.Capacity(), b.wr + min)
  {
    if b.WriteableBytes() >= min then (true, b)
    else
      var start := if b.Capacity() == 0 then DEFAULT_BUFFER_SIZE else b.Capacity();
      var cap := GrownCapacity(start, b.wr + min);
      if !allocOk then (false, b)
      else (true, Buffer(b.data + Zeros(cap - |b.data|), b.rd, b.wr))
  }

  /** Clear: both indices to 0, capacity and storage untouched. */
  function Clear(b: Buffer): (r: Buffer)
    ensures r.Valid() && r.rd == 0 && r.wr == 0 && r.data == b.data
  {
    Buffer(b.data, 0, 0)
  }

  /** Write(data, n): -1 (and nothing changes) only if growth fails; otherwise
      the n bytes land at the write index, which advances by n. */
  function Write(b: Buffer, input: seq<byte>, allocOk: bool): (r: (int, Buffer))
    requires b.Valid()
    ensures r.1.Valid() && r.1.rd == b.rd && r.1.Capacity() >= b.Capacity()
    ensures r.0 == -1 || r.0 == |input|
    ensures r.0 == -1 <==> b.WriteableBytes() < |input| && !allocOk
    ensures r.0 == -1 ==> r.1 == b
    ensures r.0 != -1 ==> r.1.wr == b.wr + |input|
    ensures r.0 != -1 ==> r.1.Content() == b.Content() + input
  {
    var (ok, g) := EnsureWritableBytes(b, |input|, allocOk);
    if !ok then (-1, b)
    else
      var d := g.data[..g.wr] + input + g.data[g.wr + |input|..];
      assert d[..b.wr] == b.data[..b.wr];
      assert d[b.wr..b.wr + |input|] == input;
      assert d[b.rd..b.wr + |input|] == b.data[b.rd..b.wr] + input;
      (|input|, Buffer(d, g.rd, g.wr + |input|))
  }

  /** When the input fits, Write stores it in place: the bytes before the
      write index and after the new write index are untouched. */
  lemma WriteInPlace(b: Buffer, input: seq<byte>, allocOk: bool)
    requires b.Valid() && b.WriteableBytes() >= |input|
    ensures var (n, b1) := Write(b, input, allocOk);
      n == |input| && |b1.data| == |b.data| && b1.wr == b.wr + |input|
      && b1.data == b.data[..b.wr] + input + b.data[b1.wr..]
  {
    var (n, b1) := Write(b, input, allocOk);
    assert b.data[..b.wr] == b.data[..b.wr + |input|][..b.wr];
  }

  /** Read(out, n): -1 with nothing changed when fewer than n bytes are
      readable; otherwise the oldest n readable bytes, and the read index
      advances by n. */
  function Read(b: Buffer, n: nat): (r: (int, seq<byte>, Buffer))
    requires b.Valid()
    ensures r.2.Valid() && r.2.data == b.data && r.2.wr == b.wr
    ensures r.0 == -1 <==> n > b.ReadableBytes()
    ensures r.0 == -1 ==> r.1 == [] && r.2 == b
    ensures r.0 != -1 ==> r.0 == n && r.1 == b.Content()[..n] && r.2.rd == b.rd + n
    ensures r.0 != -1 ==> r.1 + r.2.Content() == b.Content()
  {
    if n > b.ReadableBytes() then (-1, [], b)
    else
      assert b.data[b.rd..b.wr] == b.data[b.rd..b.rd + n] + b.data[b.rd + n..b.wr];
      (n as int, b.data[b.rd..b.rd + n], Buffer(b.data, b.rd + n, b.wr))
  }

  /** Write(Buffer* unit, n): moves min(n, readable of unit) bytes from `src`
      into `dst`; the source read index advances by what was written. */
  function WriteFrom(dst: Buffer, src: Buffer, n: nat, allocOk: bool): (r: (int, Buffer, Buffer))
    requires dst.Valid() && src.Valid()
    ensures r.1.Valid() && r.2.Valid()
    ensures var m := if n > src.ReadableBytes() then src.ReadableBytes() else n;
      (r.0 == -1 ==> r.1 == dst && r.2 == src) &&
      (r.0 != -1 ==> r.0 == m && r.1.Content() == dst.Content() + src.Content()[..m]
                     && r.2.Content() == src.Content()[m..])
    ensures r.0 == -1 <==> dst.WriteableBytes() < (if n > src.ReadableBytes() then src.ReadableBytes() else n) && !allocOk
  {
    var m := if n > src.ReadableBytes() then src.ReadableBytes() else n;
    ConsumeFront(src, m);
    var (ret, d) := Write(dst, src.data[src.rd..src.rd + m], allocOk);
    if ret > 0 then (ret, d, Buffer(src.data, src.rd + ret, src.wr))
    else (ret, d, src)
  }

  /** Taking `m` bytes off the front of a buffer splits its content at `m`. */
  lemma ConsumeFront(b: Buffer, m: nat)
    requires b.Valid() && m <= b.ReadableBytes()
    ensures b.data[b.rd..b.rd + m] == b.Content()[..m]
    ensures Buffer(b.data, b.rd + m, b.wr).Valid()
    ensures Buffer(b.data, b.rd + m, b.wr).Content() == b.Content()[m..]
  {
    var c := b.data[b.rd..b.wr];
    assert b.Content() == c;
    assert c[..m] == b.data[b.rd..b.rd + m];
    assert c[m..] == b.data[b.rd + m..b.wr];
  }

  /** Read(Buffer* unit, n) is unit->Write(this, n): `src` is this buffer. */
  function ReadInto(src: Buffer, unit: Buffer, n: nat, allocOk: bool): (r: (int, Buffer, Buffer))
    requires src.Valid() && unit.Valid()
    ensures r.1.Valid() && r.2.Valid()
    ensures r.0 != -1 ==> 0 <= r.0 <= src.ReadableBytes()
    ensures r.0 != -1 ==> r.2.Content() == unit.Content() + src.Content()[..r.0]
    ensures r.0 != -1 ==> r.1.Content() == src.Content()[r.0..]
    ensures r.0 == -1 ==> r.1 == src && r.2 == unit
  {
    var (ret, u, s) := WriteFrom(unit, src, n, allocOk);
    (ret, s, u)
  }

  /** SetBytes(data, n, idx): rejects a range ending past the write index;
      otherwise overwrites [idx, idx + n); the indices never move. */
  function SetBytes(b: Buffer, input: seq<byte>, idx: nat): (r: (int, Buffer))
    requires b.Valid()
    ensures r.1.Valid() && r.1.rd == b.rd && r.1.wr == b.wr && |r.1.data| == |b.data|
    ensures r.0 == -1 <==> idx + |input| > b.wr
    ensures r.0 == -1 ==> r.1 == b
    ensures r.0 != -1 ==> r.0 == |input| && r.1.data[idx..idx + |input|] == input
    ensures r.0 != -1 ==> r.1.data[..idx] == b.data[..idx] && r.1.data[idx + |input|..] == b.data[idx + |input|..]
  {
    if idx + |input| > b.wr then (-1, b)
    else (|input|, Buffer(b.data[..idx] + input + b.data[idx + |input|..], b.rd, b.wr))
  }

  /** Copyout(out, n): the first min(n, readable) readable bytes; no index moves. */
  function Copyout(b: Buffer, n: nat): (r: (int, seq<byte>))
    requires b.Valid()
    ensures r.0 == |r.1|
    ensures r.1 == b.Content()[..if n > b.ReadableBytes() then b.ReadableBytes() else n]
  {
    if n == 0 then (0, [])
    else
      var m := if n > b.ReadableBytes() then b.ReadableBytes() else n;
      assert b.data[b.rd..b.rd + m] == b.Content()[..m];
      (m, b.data[b.rd..b.rd + m])
  }

  /** Copyout(Buffer* unit, n): -1 when the unit cannot grow to n bytes;
      otherwise appends the copied bytes to the unit; `b` is unchanged. */
  function CopyoutTo(b: Buffer, unit: Buffer, n: nat, allocOk: bool): (r: (int, Buffer))
    requires b.Valid() && unit.Valid()
    ensures r.1.Valid()
    ensures r.0 == -1 <==> unit.WriteableBytes() < n && !allocOk
    ensures r.0 == -1 ==> r.1 == unit
    ensures r.0 != -1 ==> r.1.Content() == unit.Content() + Copyout(b, n).1
    ensures r.0 != -1 ==> r.0 == |Copyout(b, n).1| == (if n > b.ReadableBytes() then b.ReadableBytes() else n)
  {
    var (ok, u) := EnsureWritableBytes(unit, n, allocOk);
    if !ok then (-1, unit)
    else
      var (m, bytes) := Copyout(b, n);
      var d := u.data[..u.wr] + bytes + u.data[u.wr + m..];
      assert d[u.rd..u.wr + m] == u.data[u.rd..u.wr] + bytes;
      (m, Buffer(d, u.rd, u.wr + m))
  }

  /** DiscardReadedBytes: the readable bytes move to offset 0. */
  function DiscardReadedBytes(b: Buffer): (r: Buffer)
    requires b.Valid()
    ensures r.Valid() && |r.data| == |b.data|
    ensures r.Content() == b.Content()
    ensures b.rd > 0 ==> r.rd == 0 && r.wr == b.ReadableBytes()
    ensures b.rd == 0 ==> r == b
  {
    if b.rd > 0 then
      if b.Readable() then
        var tmp := b.wr - b.rd;
        Buffer(b.data[b.rd..b.wr] + b.data[tmp..], 0, tmp)
      else Buffer(b.data, 0, 0)
    else b
  }

  /** Compact(least). The source keeps WriteableBytes and ReadableBytes in
      uint32 locals, so both are taken modulo 2^32 here. A buffer with nothing
      readable is cleared first. Returns 0 when the (truncated) writable room
      is below `least` or allocation fails; otherwise reallocates to exactly
      readable + least bytes with the readable bytes at offset 0. */
  function Compact(b: Buffer, least: nat, allocOk: bool): (r: (nat, Buffer))
    requires b.Valid()
    ensures r.1.Valid()
    ensures r.0 == 0 && least > 0 ==> r.1.Content() == b.Content() && r.1.Capacity() == b.Capacity()
    ensures r.0 != 0 ==> r.1.rd == 0 && r.1.Capacity() == r.0
    ensures !b.Readable() ==> r.1.rd == 0 && r.1.wr == 0
    // Below 4 GiB the uint32 locals are exact:
    ensures b.Capacity() < TWO_32 && b.Readable() && b.WriteableBytes() < least ==> r == (0, b)
    ensures b.Capacity() < TWO_32 && b.WriteableBytes() >= least && allocOk ==>
      r.0 == b.ReadableBytes() + least && r.1.Content() == b.Content()
  {
    var c := if !b.Readable() then Clear(b) else b;
    assert c.Capacity() == b.Capacity() && c.Content() == b.Content();
    ModSmall(c.WriteableBytes());
    ModSmall(c.ReadableBytes());
    var writable32 := c.WriteableBytes() % TWO_32;
    if writable32 < least then (0, c)
    else
      var readable32 := c.ReadableBytes() % TWO_32;
      if !allocOk then (0, c)
      else
        var kept := c.data[c.rd..c.rd + readable32];
        (readable32 + least, Buffer(kept + Zeros(least), 0, readable32))
  }

  lemma ModSmall(n: nat)
    ensures n % TWO_32 <= n
    ensures n < TWO_32 ==> n % TWO_32 == n
  {
  }

  /** Limit: capacity shrinks to the write index. */
  function Limit(b: Buffer): (r: Buffer)
    requires b.Valid()
    ensures r.Valid() && r.Capacity() == b.wr && r.Content() == b.Content()
  {
    Buffer(b.data[..b.wr], b.rd, b.wr)
  }

  /** SetWriteIndex as the framing code uses it: within the readable start and capacity. */
  function SetWriteIndex(b: Buffer, idx: nat): (r: Buffer)
    requires b.Valid() && b.rd <= idx <= b.Capacity()
    ensures r.Valid() && r.data == b.data && r.rd == b.rd && r.wr == idx
  {
    Buffer(b.data, b.rd, idx)
  }

  /** c_str: writes a NUL at the write index when there is room; the readable
      content is unchanged and the returned text starts at the read index. */
  function CStr(b: Buffer): (r: (seq<byte>, Buffer))
    requires b.Valid()
    ensures r.1.Valid() && r.1.rd == b.rd && r.1.wr == b.wr && r.1.Content() == b.Content()
    ensures |r.0| >= b.ReadableBytes() && r.0[..b.ReadableBytes()] == b.Content()
  {
    var d := if b.Writeable() then b.data[b.wr := 0] else b.data;
    assert d[b.rd..b.wr] == b.data[b.rd..b.wr];
    (d[b.rd..], Buffer(d, b.rd, b.wr))
  }

  /** Writing then reading the same count returns the written bytes: the
      buffer is a FIFO. */
  lemma {:induction false} WriteThenReadFifo(b: Buffer, input: seq<byte>, allocOk: bool)
    requires b.Valid()
    ensures var (ret, b1) := Write(b, input, allocOk);
      ret != -1 ==>
        var (n, out, b2) := Read(b1, b.ReadableBytes() + |input|);
        n != -1 && out == b.Content() + input && b2.ReadableBytes() == 0
  {
    var (ret, b1) := Write(b, input, allocOk);
    if ret != -1 {
      assert b1.Content() == b.Content() + input;
      assert b1.ReadableBytes() == b.ReadableBytes() + |input|;
    }
  }
}
