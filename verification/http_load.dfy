/** The Python load tests test/http_get.py, test/http_get_range.py and
    test/http_post_para.py. Each starts worker threads that call one check
    in a loop until their time is up and then report how many calls
    passed. The HTTP server, the clock and the bytes of the saved file are
    parameters: a response is a value, a server answering Range requests a
    function from the Range header to a response, the clock the sequence
    of elapsed times the loop reads. */
module HttpLoad {
  import opened Wrappers
  import opened Bytes
  import opened CStr

  const HTTP_OK: int := 200
  const PARTIAL_CONTENT: int := 206
  const RANGE_NOT_SATISFIABLE: int := 416

  /** http_get reads the saved file 1024 bytes at a time. */
  const CHUNK: nat := 1024

  const RANGE_UNIT: string := "bytes="

  /** The exceptions the checks can raise. An exception ends the worker
      thread before it reports or releases its semaphore. */
  datatype PyError = TypeError | ValueError | IndexError | RuntimeError(message: string)

  /** What requests.get hands back: the status code, the Content-Length
      header if present, and the body bytes. */
  datatype Response = Response(status: int, contentLength: Option<string>, content: seq<byte>)

  // ---------------------------------------------------------------------------
  // int() of a header value

  /** The white space str.strip and int() drop around a number. */
  const PY_SPACE: set<char> := {' ', '\t', '\n', '\r', '\U{0B}', '\U{0C}'}

  /** Python's int() of a string: optional white space around an optional
      sign and a non-empty run of decimal digits; anything else raises
      ValueError (None). */
  function PyInt(s: string): (r: Option<int>)
    ensures r.Some? ==> Trim(s, PY_SPACE) != ""
    ensures AllDigits(Trim(s, PY_SPACE)) && Trim(s, PY_SPACE) != "" ==>
      r == Some(DigitsValue(Trim(s, PY_SPACE)))
  {
    var t := Trim(s, PY_SPACE);
    if |t| > 0 && (t[0] == '+' || t[0] == '-') then
      var d := t[1..];
      if |d| > 0 && AllDigits(d) then Some(if t[0] == '-' then -(DigitsValue(d) as int) else DigitsValue(d) as int)
      else None
    else if |t| > 0 && AllDigits(t) then Some(DigitsValue(t))
    else None
  }

  /** The decimal rendering of a length reads back as that length. */
  lemma PyIntOfNatToString(n: nat)
    ensures PyInt(NatToString(n)) == Some(n)
  {
    var d := NatToString(n);
    assert forall i :: 0 <= i < |d| ==> d[i] !in PY_SPACE by {
      forall i | 0 <= i < |d| ensures d[i] !in PY_SPACE {
        assert IsDigit(d[i]);
      }
    }
    TrimNothing(d, PY_SPACE);
    DigitsValueOfNatToString(n);
  }

  /** Text that neither starts nor ends with a character of `cs` is its own
      trim. */
  lemma TrimNothing(s: string, cs: set<char>)
    requires forall i :: 0 <= i < |s| ==> s[i] !in cs
    ensures Trim(s, cs) == s
  {
    assert TrimLeft(s, cs) == s;
    assert TrimRight(s, cs) == s;
  }

  // ---------------------------------------------------------------------------
  // Byte comparison

  /** The first index at which `got` fails to match `want`: one `got` does
      not reach or holds another byte at; |want| when it matches all of
      `want`. */
  function FirstDiff(want: seq<byte>, got: seq<byte>): (k: nat)
    ensures k <= |want| && k <= |got|
    ensures forall i :: 0 <= i < k ==> got[i] == want[i]
    ensures k < |want| ==> k == |got| || got[k] != want[k]
  {
    FirstDiffFrom(want, got, 0)
  }

  /** FirstDiff once the first `from` bytes are known to match. */
  function FirstDiffFrom(want: seq<byte>, got: seq<byte>, from: nat): (k: nat)
    requires from <= |want| && from <= |got|
    requires forall i :: 0 <= i < from ==> got[i] == want[i]
    ensures from <= k <= |want| && k <= |got|
    ensures forall i :: 0 <= i < k ==> got[i] == want[i]
    ensures k < |want| ==> k == |got| || got[k] != want[k]
    decreases |want| - from
  {
    if from == |want| || from == |got| || got[from] != want[from] then from
    else
      var m := FirstDiffFrom(want, got, from + 1);
      assert forall i :: 0 <= i < m ==> got[i] == want[i];
      m
  }

  /** `want` is a prefix of `got`. */
  predicate BytesPrefix(want: seq<byte>, got: seq<byte>) {
    |want| <= |got| && got[..|want|] == want
  }

  /** The comparison loop `for i in range(len(want)): if want[i] != got[i]:
      return False`: false at the first byte that differs, IndexError when
      `got` ends first, true otherwise. */
  function Compare(want: seq<byte>, got: seq<byte>): (r: Result<bool, PyError>)
    ensures r.Failure? ==> r.error == IndexError
  {
    var k := FirstDiff(want, got);
    if k == |want| then Success(true)
    else if k == |got| then Failure(IndexError)
    else Success(false)
  }

  /** The comparison passes exactly when `want` is a prefix of `got`, and
      raises exactly when `got` is a proper prefix of `want`. */
  lemma CompareMeaning(want: seq<byte>, got: seq<byte>)
    ensures Compare(want, got) == Success(true) <==> BytesPrefix(want, got)
    ensures Compare(want, got).Failure? <==> |got| < |want| && got == want[..|got|]
  {
    var k := FirstDiff(want, got);
    if k == |want| {
      assert got[..|want|] == want;
    } else if k == |got| {
      assert got == want[..|got|];
    } else {
      assert got[k] != want[k];
    }
  }

  /** The comparison loop, byte by byte. */
  method CompareBytes(want: seq<byte>, got: seq<byte>) returns (r: Result<bool, PyError>)
    ensures r == Compare(want, got)
  {
    var i := 0;
    while i < |want|
      invariant i <= |want| && i <= |got|
      invariant forall j :: 0 <= j < i ==> got[j] == want[j]
    {
      if i >= |got| {
        FirstDiffIs(want, got, i);
        return Failure(IndexError);
      }
      if want[i] != got[i] {
        FirstDiffIs(want, got, i);
        return Success(false);
      }
      i := i + 1;
    }
    FirstDiffIs(want, got, i);
    return Success(true);
  }

  /** The first difference is the index that matches everything before it
      and fails there. */
  lemma FirstDiffIs(want: seq<byte>, got: seq<byte>, k: nat)
    requires k <= |want| && k <= |got|
    requires forall i :: 0 <= i < k ==> got[i] == want[i]
    requires k < |want| ==> k == |got| || got[k] != want[k]
    ensures FirstDiff(want, got) == k
  {
  }

  // ---------------------------------------------------------------------------
  // http_get

  /** http_get(url) against one response, with `file` the bytes of
      http_get.bin: false unless the status is 200 and the declared length
      is the file's; int() of a missing header raises TypeError and of a
      malformed one ValueError; then the body is compared with the file. */
  function GetCheck(resp: Response, file: seq<byte>): (r: Result<bool, PyError>)
    ensures r == Success(true) <==>
      resp.status == HTTP_OK && resp.contentLength.Some? &&
      PyInt(resp.contentLength.value) == Some(|file|) && BytesPrefix(file, resp.content)
    ensures r == Failure(IndexError) ==> |resp.content| < |file|
    ensures resp.status != HTTP_OK ==> r == Success(false)
  {
    if resp.status != HTTP_OK then Success(false)
    else match resp.contentLength
      case None => Failure(TypeError)
      case Some(h) =>
        match PyInt(h)
        case None => Failure(ValueError)
        case Some(v) =>
          if v != |file| then Success(false)
          else CompareMeaning(file, resp.content); Compare(file, resp.content)
  }

  /** http_get as the script runs it: the file read back 1024 bytes at a
      time, each chunk compared with the body at the same offset. */
  method HttpGet(resp: Response, file: seq<byte>) returns (r: Result<bool, PyError>)
    ensures r == GetCheck(resp, file)
  {
    if resp.status != HTTP_OK {
      return Success(false);
    }
    if resp.contentLength.None? {
      return Failure(TypeError);
    }
    var v := PyInt(resp.contentLength.value);
    if v.None? {
      return Failure(ValueError);
    }
    if v.value != |file| {
      return Success(false);
    }
    r := CompareChunked(file, resp.content);
  }

  /** The loop of http_get: the file read back 1024 bytes at a time, each
      chunk compared with the body at the same offset; it decides what one
      comparison of the whole file would. */
  method CompareChunked(file: seq<byte>, content: seq<byte>) returns (r: Result<bool, PyError>)
    ensures r == Compare(file, content)
  {
    var start := 0;
    while true
      invariant start <= |file| && start <= |content|
      invariant forall i :: 0 <= i < start ==> content[i] == file[i]
      decreases |file| - start
    {
      var chunk := file[start..start + Min(CHUNK, |file| - start)];
      if |chunk| == 0 {
        // os.path.getsize gave the length the reads add up to, so the
        // reads end exactly at it.
        FirstDiffIs(file, content, start);
        return Success(true);
      }
      var c := CompareBytes(chunk, content[start..]);
      if c != Success(true) {
        ChunkDiff(file, content, start, chunk);
        return c;
      }
      CompareMeaning(chunk, content[start..]);
      assert forall i :: start <= i < start + |chunk| ==> content[i] == content[start..][i - start] == chunk[i - start];
      start := start + |chunk|;
    }
  }

  /** A chunk of the file that does not match the body at its offset
      decides the whole comparison the same way. */
  lemma ChunkDiff(file: seq<byte>, content: seq<byte>, start: nat, chunk: seq<byte>)
    requires start <= |content| && start + |chunk| <= |file| && chunk == file[start..start + |chunk|]
    requires forall i :: 0 <= i < start ==> content[i] == file[i]
    requires Compare(chunk, content[start..]) != Success(true)
    ensures Compare(file, content) == Compare(chunk, content[start..])
  {
    var got := content[start..];
    var k := FirstDiff(chunk, got);
    assert k < |chunk|;
    forall i | 0 <= i < start + k ensures i < |content| && content[i] == file[i] {
      if i >= start {
        assert got[i - start] == chunk[i - start];
      }
    }
    if start + k < |content| {
      assert content[start + k] == got[k] && file[start + k] == chunk[k];
    }
    FirstDiffIs(file, content, start + k);
  }

  /** A server that answers 200 with the saved content and its length
      passes the check. */
  lemma SavedContentPasses(content: seq<byte>)
    ensures GetCheck(Response(HTTP_OK, Some(NatToString(|content|)), content), content) == Success(true)
  {
    PyIntOfNatToString(|content|);
    assert content[..|content|] == content;
  }

  // ---------------------------------------------------------------------------
  // http_get_range

  /** The Range header value for bytes a through b inclusive. */
  function RangeHeader(a: nat, b: nat): string {
    RANGE_UNIT + NatToString(a) + "-" + NatToString(b)
  }

  /** How a server reads a Range header back: "bytes=a-b" with a and b
      non-empty runs of digits. */
  function ParseRange(h: string): (r: Option<(nat, nat)>)
    ensures r.Some? ==> IsPrefix(RANGE_UNIT, h) && '-' in h[|RANGE_UNIT|..]
  {
    if !IsPrefix(RANGE_UNIT, h) then None
    else
      var rest := h[|RANGE_UNIT|..];
      var (x, y) := SplitAtLast(rest, '-');
      if '-' in rest && x != "" && y != "" && AllDigits(x) && AllDigits(y) then
        Some((DigitsValue(x), DigitsValue(y)))
      else None
  }

  /** A Range header reads back as the range it was written for. */
  lemma RangeHeaderRoundTrip(a: nat, b: nat)
    ensures ParseRange(RangeHeader(a, b)) == Some((a, b))
  {
    var x := NatToString(a);
    var y := NatToString(b);
    var h := RangeHeader(a, b);
    assert h == RANGE_UNIT + (x + ['-'] + y);
    assert h[|RANGE_UNIT|..] == x + ['-'] + y;
    assert forall i :: 0 <= i < |y| ==> IsDigit(y[i]);
    SplitAtLastOfJoin(x, '-', y);
    DigitsValueOfNatToString(a);
    DigitsValueOfNatToString(b);
  }

  /** What read(step) takes of the `remaining` bytes: everything for a
      negative step, nothing for 0, otherwise at most `step`. */
  function ReadSize(step: int, remaining: nat): (n: nat)
    ensures n <= remaining
    ensures step < 0 ==> n == remaining
    ensures step == 0 ==> n == 0
    ensures step > 0 && remaining > 0 ==> 0 < n <= step
    ensures step > 0 && n < step ==> n == remaining
  {
    if step < 0 then remaining else Min(step, remaining)
  }

  /** The bytes `first` through `last` of the file, as one Range request
      names them. */
  datatype ByteRange = ByteRange(first: int, last: int)

  /** A request range that covers exactly what read(step) took at its
      start. */
  predicate RangeFits(file: seq<byte>, step: int, range: ByteRange) {
    range.first <= range.last < |file| && range.last + 1 - range.first == ReadSize(step, |file| - range.first)
  }

  /** Every range covers exactly what read(step) took at its start. */
  predicate AllFit(file: seq<byte>, step: int, rs: seq<ByteRange>) {
    forall k :: 0 <= k < |rs| ==> RangeFits(file, step, rs[k])
  }

  /** Each range starts right after the one before it. */
  predicate Contiguous(rs: seq<ByteRange>) {
    forall k :: 0 < k < |rs| ==> rs[k].first == rs[k - 1].last + 1
  }

  /** A range followed by contiguous ranges starting right after it. */
  lemma ContiguousCons(range: ByteRange, rest: seq<ByteRange>)
    requires Contiguous(rest) && (rest != [] ==> rest[0].first == range.last + 1)
    ensures Contiguous([range] + rest)
  {
    var rs := [range] + rest;
    forall k | 0 < k < |rs| ensures rs[k].first == rs[k - 1].last + 1 {
      assert rs[k] == rest[k - 1];
      if k > 1 {
        assert rs[k - 1] == rest[k - 2];
      }
    }
  }

  /** The outcome of the range check and the ranges it requested. */
  datatype RangeRun = RangeRun(outcome: Result<bool, PyError>, ranges: seq<ByteRange>)

  /** The loop of http_get_range from byte `start` of the file: each chunk
      read is requested as a Range, a status other than 206 gives false, the
      chunk is compared with the reply; a read that gives nothing ends the
      loop, true when it is at the end of the file. */
  function RangeFrom(file: seq<byte>, step: int, serve: string -> Response, start: nat): (r: RangeRun)
    requires start <= |file|
    ensures r.ranges != [] ==> r.ranges[0].first == start
    ensures start < |file| && step == 0 ==> r == RangeRun(Success(false), [])
    decreases |file| - start
  {
    var len := ReadSize(step, |file| - start);
    if len == 0 then RangeRun(Success(start == |file|), [])
    else
      var range := ByteRange(start, start + len - 1);
      var reply := serve(RangeHeader(range.first, range.last));
      if reply.status != PARTIAL_CONTENT then RangeRun(Success(false), [range])
      else
        var c := Compare(file[start..start + len], reply.content);
        if c != Success(true) then RangeRun(c, [range])
        else
          var rest := RangeFrom(file, step, serve, start + len);
          RangeRun(rest.outcome, [range] + rest.ranges)
  }

  /** The ranges the loop requests from `start` each cover what read(step)
      took, follow one another without gap or overlap, and reach the end of
      the file when the check passes. */
  lemma {:induction false} RangeFromShape(file: seq<byte>, step: int, serve: string -> Response, start: nat)
    requires start <= |file|
    ensures var r := RangeFrom(file, step, serve, start);
      AllFit(file, step, r.ranges) && Contiguous(r.ranges) &&
      (r.outcome == Success(true) ==>
        (if r.ranges == [] then start == |file| else r.ranges[|r.ranges| - 1].last == |file| - 1))
    decreases |file| - start
  {
    var len := ReadSize(step, |file| - start);
    if len > 0 {
      var range := ByteRange(start, start + len - 1);
      var reply := serve(RangeHeader(range.first, range.last));
      if reply.status == PARTIAL_CONTENT && Compare(file[start..start + len], reply.content) == Success(true) {
        var rest := RangeFrom(file, step, serve, start + len);
        assert RangeFrom(file, step, serve, start) == RangeRun(rest.outcome, [range] + rest.ranges) by {
          RangeFromStep(file, step, serve, start, len, reply);
        }
        RangeFromShape(file, step, serve, start + len);
        assert RangeFits(file, step, range);
        ShapeCons(file, step, range, rest);
      } else {
        assert RangeFrom(file, step, serve, start).ranges == [range] by {
          RangeFromStop(file, step, serve, start, len, reply);
        }
      }
    }
  }

  /** The shape RangeFromShape states carries over to a fitting range put
      in front of the rest of the loop. */
  lemma ShapeCons(file: seq<byte>, step: int, range: ByteRange, rest: RangeRun)
    requires RangeFits(file, step, range)
    requires AllFit(file, step, rest.ranges) && Contiguous(rest.ranges)
    requires rest.ranges != [] ==> rest.ranges[0].first == range.last + 1
    requires rest.outcome == Success(true) ==>
      (if rest.ranges == [] then range.last + 1 == |file| else rest.ranges[|rest.ranges| - 1].last == |file| - 1)
    ensures var rs := [range] + rest.ranges;
      AllFit(file, step, rs) && Contiguous(rs) &&
      (rest.outcome == Success(true) ==> rs[|rs| - 1].last == |file| - 1)
  {
    ContiguousCons(range, rest.ranges);
    AllFitCons(file, step, range, rest.ranges);
    assert ([range] + rest.ranges)[|rest.ranges|] == if rest.ranges == [] then range else rest.ranges[|rest.ranges| - 1];
  }

  /** A fitting range followed by fitting ranges. */
  lemma AllFitCons(file: seq<byte>, step: int, range: ByteRange, rest: seq<ByteRange>)
    requires RangeFits(file, step, range) && AllFit(file, step, rest)
    ensures AllFit(file, step, [range] + rest)
  {
    var rs := [range] + rest;
    forall k | 0 <= k < |rs| ensures RangeFits(file, step, rs[k]) {
      if k > 0 {
        assert rs[k] == rest[k - 1];
      }
    }
  }

  /** One step of RangeFrom: a chunk that matches its reply is followed by
      the rest of the loop. */
  lemma RangeFromStep(file: seq<byte>, step: int, serve: string -> Response, start: nat, len: nat, reply: Response)
    requires start <= |file| && len == ReadSize(step, |file| - start) && len > 0
    requires reply == serve(RangeHeader(start, start + len - 1))
    requires reply.status == PARTIAL_CONTENT && Compare(file[start..start + len], reply.content) == Success(true)
    ensures RangeFrom(file, step, serve, start) ==
      RangeRun(RangeFrom(file, step, serve, start + len).outcome,
               [ByteRange(start, start + len - 1)] + RangeFrom(file, step, serve, start + len).ranges)
  {
  }

  /** The steps of RangeFrom that end the loop: a status other than 206, or
      a chunk that does not match its reply. */
  lemma RangeFromStop(file: seq<byte>, step: int, serve: string -> Response, start: nat, len: nat, reply: Response)
    requires start <= |file| && len == ReadSize(step, |file| - start) && len > 0
    requires reply == serve(RangeHeader(start, start + len - 1))
    ensures reply.status != PARTIAL_CONTENT ==>
      RangeFrom(file, step, serve, start) == RangeRun(Success(false), [ByteRange(start, start + len - 1)])
    ensures reply.status == PARTIAL_CONTENT && Compare(file[start..start + len], reply.content) != Success(true) ==>
      RangeFrom(file, step, serve, start) ==
        RangeRun(Compare(file[start..start + len], reply.content), [ByteRange(start, start + len - 1)])
  {
  }

  /** http_get_range(url, step) with `file` the bytes of
      http_get_range.bin: false for an empty file, otherwise the loop from
      the first byte. */
  function RangeCheck(file: seq<byte>, step: int, serve: string -> Response): (r: RangeRun)
    ensures |file| == 0 ==> r == RangeRun(Success(false), [])
    ensures r.outcome == Success(true) ==>
      r.ranges != [] && r.ranges[0].first == 0 && r.ranges[|r.ranges| - 1].last == |file| - 1
    ensures AllFit(file, step, r.ranges) && Contiguous(r.ranges)
  {
    if |file| == 0 then RangeRun(Success(false), [])
    else RangeFromShape(file, step, serve, 0); RangeFrom(file, step, serve, 0)
  }

  /** http_get_range as the script runs it. */
  method HttpGetRange(file: seq<byte>, step: int, serve: string -> Response) returns (r: Result<bool, PyError>, ranges: seq<ByteRange>)
    ensures |file| == 0 ==> r == Success(false) && ranges == []
    ensures |file| > 0 ==> RangeRun(r, ranges) == RangeFrom(file, step, serve, 0)
  {
    if |file| == 0 {
      return Success(false), [];
    }
    var start := 0;
    ranges := [];
    ghost var whole := RangeFrom(file, step, serve, 0);
    ghost var rest := whole;
    assert [] + whole.ranges == whole.ranges;
    while true
      invariant start <= |file| && rest == RangeFrom(file, step, serve, start)
      invariant whole == RangeRun(rest.outcome, ranges + rest.ranges)
      decreases |file| - start
    {
      var stop, got, len, next := FetchRange(file, step, serve, start, rest);
      if stop.Some? {
        return stop.value, ranges + got;
      }
      assert ranges + (got + next.ranges) == (ranges + got) + next.ranges;
      ranges := ranges + got;
      start := start + len;
      rest := next;
    }
  }

  /** One pass of http_get_range's loop from byte `start`: read the next
      chunk, request its range and compare. It either settles the outcome
      (`stop`) or moves `len` bytes on, giving the ranges it requested. */
  method FetchRange(file: seq<byte>, step: int, serve: string -> Response, start: nat, ghost rest: RangeRun)
    returns (stop: Option<Result<bool, PyError>>, got: seq<ByteRange>, len: nat, ghost next: RangeRun)
    requires start <= |file| && rest == RangeFrom(file, step, serve, start)
    ensures stop.Some? ==> rest == RangeRun(stop.value, got)
    ensures stop.None? ==> (0 < len && start + len <= |file| && next == RangeFrom(file, step, serve, start + len) &&
      rest == RangeRun(next.outcome, got + next.ranges))
  {
    len := ReadSize(step, |file| - start);
    if len == 0 {
      return Some(Success(start == |file|)), [], 0, rest;
    }
    var chunk := file[start..start + len];
    var range := ByteRange(start, start + len - 1);
    var reply := serve(RangeHeader(range.first, range.last));
    RangeFromStop(file, step, serve, start, len, reply);
    if reply.status != PARTIAL_CONTENT {
      return Some(Success(false)), [range], len, rest;
    }
    var c := CompareBytes(chunk, reply.content);
    if c != Success(true) {
      return Some(c), [range], len, rest;
    }
    RangeFromStep(file, step, serve, start, len, reply);
    stop, got, next := None, [range], RangeFrom(file, step, serve, start + len);
  }

  /** A server that answers every satisfiable Range with 206 and those
      bytes of `content`. */
  function Mirror(content: seq<byte>): string -> Response {
    h => match ParseRange(h)
      case Some((a, b)) =>
        if a <= b < |content| then Response(PARTIAL_CONTENT, None, content[a..b + 1])
        else Response(RANGE_NOT_SATISFIABLE, None, [])
      case None => Response(HTTP_OK, Some(NatToString(|content|)), content)
  }

  /** The mirror answers a satisfiable Range with 206 and exactly those bytes. */
  lemma MirrorAnswers(content: seq<byte>, a: nat, b: nat)
    requires a <= b < |content|
    ensures Mirror(content)(RangeHeader(a, b)) == Response(PARTIAL_CONTENT, None, content[a..b + 1])
  {
    RangeHeaderRoundTrip(a, b);
  }

  /** Against a server mirroring the saved file the check passes for every
      non-zero step, requesting the file in consecutive ranges of `step`
      bytes (all of it at once for a negative step). */
  lemma {:induction false} MirrorPasses(file: seq<byte>, step: int, start: nat)
    requires step != 0 && start <= |file|
    ensures RangeFrom(file, step, Mirror(file), start).outcome == Success(true)
    decreases |file| - start
  {
    var len := ReadSize(step, |file| - start);
    if len > 0 {
      var chunk := file[start..start + len];
      var reply := Mirror(file)(RangeHeader(start, start + len - 1));
      MirrorAnswers(file, start, start + len - 1);
      assert Compare(chunk, reply.content) == Success(true) by {
        assert chunk[..|chunk|] == chunk;
        CompareMeaning(chunk, chunk);
      }
      RangeFromStep(file, step, Mirror(file), start, len, reply);
      MirrorPasses(file, step, start + len);
    }
  }

  /** A step of 0 reads nothing, so the check of a non-empty file fails
      without a request. */
  lemma ZeroStepFails(file: seq<byte>, serve: string -> Response)
    requires |file| > 0
    ensures RangeCheck(file, 0, serve) == RangeRun(Success(false), [])
  {
  }

  // ---------------------------------------------------------------------------
  // http_post_para

  /** What the post gives: a reply with its status and its body (as text),
      or a socket error, which the script catches. */
  datatype PostReply = Replied(status: int, body: string) | SocketFailed

  /** The value of "back" in the configuration file as json.load gives it:
      a string, or some other JSON value. Never bytes. */
  datatype JsonValue = JString(s: string) | JOther

  /** http_post_para(url, para, back) as written: a socket error passes;
      a status other than 200 fails; otherwise `r.content != back` compares
      a bytes object with a JSON value, which Python never finds equal, so
      the check fails. `para` is not used; the form posted is fixed. */
  function PostParaCheckAsWritten(reply: PostReply, back: JsonValue): bool {
    match reply
    case SocketFailed => true
    case Replied(status, _) =>
      if status != HTTP_OK then false
      else
        var bytesEqualBack := false;
        bytesEqualBack
  }

  /** As written the check passes only when the post fails with a socket
      error: a server echoing `back` exactly is counted as a failure. */
  lemma AsWrittenPassesOnlyOnSocketError(reply: PostReply, back: JsonValue)
    ensures PostParaCheckAsWritten(reply, back) <==> reply.SocketFailed?
    ensures !PostParaCheckAsWritten(Replied(HTTP_OK, "ok"), JString("ok"))
  {
  }

  /** The corrected check compares the reply's text with `back`. */
  function PostParaCheck(reply: PostReply, back: JsonValue): (r: bool)
    ensures reply.Replied? ==> (r <==> reply.status == HTTP_OK && back == JString(reply.body))
    ensures reply.SocketFailed? ==> r
  {
    match reply
    case SocketFailed => true
    case Replied(status, body) => status == HTTP_OK && back == JString(body)
  }

  /** A server that echoes `back` passes the corrected check, and one that
      answers anything else fails it. */
  lemma EchoPasses(status: int, body: string, back: string)
    ensures PostParaCheck(Replied(HTTP_OK, back), JString(back))
    ensures body != back ==> !PostParaCheck(Replied(status, body), JString(back))
    ensures status != HTTP_OK ==> !PostParaCheck(Replied(status, back), JString(back))
  {
  }

  // ---------------------------------------------------------------------------
  // The worker threads

  /** What a worker thread ends with: its tally, the exception that ended
      it at call `at`, or Running when the outcomes or clock readings given
      run out first. */
  datatype Tally = Tally(total: nat, succeed: nat) | Raised(at: nat, error: PyError) | Running

  /** The number of calls that passed. */
  function Passed(outcomes: seq<Result<bool, PyError>>): (n: nat)
    ensures n <= |outcomes|
  {
    if outcomes == [] then 0
    else Passed(outcomes[..|outcomes| - 1]) + (if outcomes[|outcomes| - 1] == Success(true) then 1 else 0)
  }

  /** The loop of http_get_thread (and of http_get_range_thread and
      http_post_para_thread, written the same way): call the check, count
      the call and whether it passed, stop once the elapsed time exceeds
      the configured time. `outcomes[i]` is what call i gives and
      `elapsed[i]` the time read after it. */
  method Worker(outcomes: seq<Result<bool, PyError>>, elapsed: seq<int>, limit: int) returns (t: Tally)
    ensures t.Tally? ==>
      1 <= t.total <= |outcomes| && t.total <= |elapsed| &&
      t.succeed == Passed(outcomes[..t.total]) && t.succeed <= t.total &&
      elapsed[t.total - 1] > limit &&
      (forall j :: 0 <= j < t.total - 1 ==> elapsed[j] <= limit) &&
      (forall j :: 0 <= j < t.total ==> outcomes[j].Success?)
    ensures t.Raised? ==>
      t.at < |outcomes| && outcomes[t.at] == Failure(t.error) &&
      (forall j :: 0 <= j < t.at ==> outcomes[j].Success? && j < |elapsed| && elapsed[j] <= limit)
    ensures t.Running? ==>
      forall j :: 0 <= j < |outcomes| && j < |elapsed| ==> outcomes[j].Success? && elapsed[j] <= limit
  {
    var total := 0;
    var succeed := 0;
    while total < |outcomes| && total < |elapsed|
      invariant total <= |outcomes| && total <= |elapsed|
      invariant succeed == Passed(outcomes[..total])
      invariant forall j :: 0 <= j < total ==> outcomes[j].Success? && elapsed[j] <= limit
    {
      var ret := outcomes[total];
      if ret.Failure? {
        return Raised(total, ret.error);
      }
      assert outcomes[..total + 1][..total] == outcomes[..total];
      if ret.value {
        succeed := succeed + 1;
      }
      total := total + 1;
      if elapsed[total - 1] > limit {
        return Tally(total, succeed);
      }
    }
    return Running;
  }

  /** The ratio a worker prints, in percent. */
  function Ratio(t: Tally): (r: real)
    requires t.Tally? && 1 <= t.total && t.succeed <= t.total
    ensures 0.0 <= r <= 100.0
    ensures t.succeed == t.total ==> r == 100.0
  {
    t.succeed as real / t.total as real * 100.0
  }

  // ---------------------------------------------------------------------------
  // The scripts' start

  /** The start of http_get.py and http_get_range.py: a usage error unless
      there is exactly one argument (the configuration file), then a
      prepare error unless a first GET of the URL answers 200; otherwise
      the body, which is saved as the file every worker compares against. */
  function Prepare(argv: seq<string>, first: Response, usage: string, prepareError: string): (r: Result<seq<byte>, PyError>)
    ensures |argv| != 2 ==> r == Failure(RuntimeError(usage))
    ensures |argv| == 2 ==> (r.Success? <==> first.status == HTTP_OK)
    ensures r.Success? ==> r.value == first.content
  {
    if |argv| != 2 then Failure(RuntimeError(usage))
    else if first.status != HTTP_OK then Failure(RuntimeError(prepareError))
    else Success(first.content)
  }

  const GET_USAGE: string := "Usage: http_get.py http_get.json"
  const GET_PREPARE_ERROR: string := "http get prepare error"
  const RANGE_USAGE: string := "Usage: http_get_range.py http_get_range.json"
  const RANGE_PREPARE_ERROR: string := "http get range prepare error"
  const POST_USAGE: string := "Usage: http_post_para.py http_post_para.json"

  /** When the server answers the later GETs as it answered the first one,
      with the length of the body it saved, every check of http_get.py
      passes. */
  lemma PreparedGetPasses(argv: seq<string>, first: Response)
    requires Prepare(argv, first, GET_USAGE, GET_PREPARE_ERROR).Success?
    ensures var file := Prepare(argv, first, GET_USAGE, GET_PREPARE_ERROR).value;
      GetCheck(Response(HTTP_OK, Some(NatToString(|file|)), first.content), file) == Success(true)
  {
    SavedContentPasses(first.content);
  }

  /** When the server mirrors the body it first sent, every check of
      http_get_range.py with a non-zero step passes for a non-empty body. */
  lemma PreparedRangePasses(argv: seq<string>, first: Response, step: int)
    requires Prepare(argv, first, RANGE_USAGE, RANGE_PREPARE_ERROR).Success?
    requires step != 0 && |first.content| > 0
    ensures var file := Prepare(argv, first, RANGE_USAGE, RANGE_PREPARE_ERROR).value;
      RangeCheck(file, step, Mirror(file)).outcome == Success(true)
  {
    MirrorPasses(first.content, step, 0);
  }

  /** The start of http_post_para.py: only the usage check; there is no
      prepare step. */
  function PostStart(argv: seq<string>): (r: Option<PyError>)
    ensures r.Some? <==> |argv| != 2
    ensures r.Some? ==> r.value == RuntimeError(POST_USAGE)
  {
    if |argv| != 2 then Some(RuntimeError(POST_USAGE)) else None
  }
}
