/** The HTTP client test programs test/http_post_para.cc and
    test/http_post_file.cc. Both carry the same URL parser and the same
    Content-Length reader; the first posts a form parameter, the second a
    parameter and a file as multipart form data. Name lookup, connect, the
    file system and the bytes recv hands back are parameters. */
module HttpClient {
  import opened Wrappers
  import opened CStr

  const BUFSIZE: nat := 2048
  const HTTP_DEFAULT_PORT: int := 80

  const SCHEME: string := "http://"
  const CONTENT_LENGTH: string := "Content-Length:"
  const CRLF: string := "\r\n"
  const HEADER_END: string := "\r\n\r\n"
  const STATUS_OK: string := "200 OK"

  // ---------------------------------------------------------------------------
  // Http_client_parse_url

  /** What Http_client_parse_url fills in. A URL without a '/' after the
      host leaves the path buffer as the caller initialised it (None). */
  datatype Url = Url(host: string, port: int, path: Option<string>)

  /** Http_client_parse_url: refused for a NULL URL or one not starting with
      "http://"; the host runs up to the first '/', the path is what follows
      it; a ':' in the host ends it and atoi of the rest is the port,
      otherwise the port is 80. */
  function ParseUrl(url: Option<string>): (r: Option<Url>)
    ensures r.None? <==> url.None? || !IsPrefix(SCHEME, CString(url.value))
    ensures r.Some? ==> '/' !in r.value.host && ':' !in r.value.host && '\0' !in r.value.host
    ensures r.Some? && r.value.path.Some? ==> '\0' !in r.value.path.value
  {
    if url.None? then None
    else
      var u := CString(url.value);
      if !IsPrefix(SCHEME, u) then None
      else Some(UrlOf(SplitPath(u[|SCHEME|..])))
  }

  /** The text after "http://" split at its first '/' into the host (with
      any port) and the path after the '/'. */
  function SplitPath(rest: string): (r: (string, Option<string>))
    ensures '/' !in r.0 && |r.0| <= |rest| && r.0 == rest[..|r.0|]
    ensures r.1.Some? ==> |r.0| < |rest| && r.1.value == rest[|r.0| + 1..]
  {
    match FindChar(rest, '/')
    case Some(j) => (rest[..j], Some(rest[j + 1..]))
    case None => (rest, None)
  }

  /** The host part split at its first ':' into the host and atoi of the
      port; 80 without a ':'. */
  function UrlOf(split: (string, Option<string>)): (r: Url)
    ensures ':' !in r.host && |r.host| <= |split.0| && r.host == split.0[..|r.host|] && r.path == split.1
  {
    var (ip, path) := split;
    match FindChar(ip, ':')
    case Some(k) => Url(ip[..k], Atoi(ip[k + 1..]), path)
    case None => Url(ip, HTTP_DEFAULT_PORT, path)
  }

  /** The ":port" part of a URL, if any. */
  function PortText(port: Option<nat>): string {
    match port case Some(p) => ":" + NatToString(p) case None => ""
  }

  /** The "/path" part of a URL, if any. */
  function PathText(path: Option<string>): string {
    match path case Some(t) => "/" + t case None => ""
  }

  /** The text of a URL naming a host, a port and a path. */
  function UrlText(host: string, port: Option<nat>, path: Option<string>): string {
    SCHEME + (host + PortText(port) + PathText(path))
  }

  /** A URL written from a host, a port and a path parses back into them;
      without a port it is 80, without a path the path is left alone. */
  lemma ParseUrlText(host: string, port: Option<nat>, path: Option<string>)
    requires '/' !in host && ':' !in host && '\0' !in host
    requires path.Some? ==> '\0' !in path.value
    ensures ParseUrl(Some(UrlText(host, port, path))) ==
      Some(Url(host, match port case Some(p) => p case None => HTTP_DEFAULT_PORT, path))
  {
    var ip := host + PortText(port);
    PortTextFree(port);
    assert '\0' !in PathText(path);
    SchemeRest(ip + PathText(path));
    SplitPathText(ip, path);
    if port.Some? {
      PortSplit(host, port.value);
    } else {
      assert ip == host;
    }
  }

  /** "http://" followed by NUL-free text parses as that text split. */
  lemma SchemeRest(rest: string)
    requires '\0' !in rest
    ensures ParseUrl(Some(SCHEME + rest)) == Some(UrlOf(SplitPath(rest)))
  {
    var u := SCHEME + rest;
    assert '\0' !in u;
    NoNulCString(u);
    assert u[..|SCHEME|] == SCHEME && u[|SCHEME|..] == rest;
  }

  /** A host part without '/' followed by a "/path" splits back apart. */
  lemma SplitPathText(ip: string, path: Option<string>)
    requires '/' !in ip
    ensures SplitPath(ip + PathText(path)) == (ip, path)
  {
    if path.Some? {
      FindCharAt(ip, '/', path.value);
    } else {
      assert ip + PathText(path) == ip;
    }
  }

  /** The port part of a URL holds neither NUL nor '/'. */
  lemma PortTextFree(port: Option<nat>)
    ensures '\0' !in PortText(port) && '/' !in PortText(port)
  {
    if port.Some? {
      var d := NatToString(port.value);
      assert forall i :: 0 <= i < |d| ==> IsDigit(d[i]);
      assert (":" + d)[1..] == d;
    }
  }

  /** "host:port" splits at its ':' into the host and the port's value. */
  lemma PortSplit(host: string, port: nat)
    requires ':' !in host
    ensures var ip := host + (":" + NatToString(port));
      FindChar(ip, ':') == Some(|host|) && ip[..|host|] == host && Atoi(ip[|host| + 1..]) == port
  {
    var d := NatToString(port);
    FindCharAt(host, ':', d);
    assert host + (":" + d) == host + [':'] + d;
    AtoiOfDigits(d, "");
    assert d + "" == d;
    DigitsValueOfNatToString(port);
  }

  // ---------------------------------------------------------------------------
  // Http_client_content_length

  /** Http_client_content_length: atoi of the text between "Content-Length:"
      and the "\r\n" after it; refused when either is missing or the value
      is not positive. */
  function ContentLength(buf: string): (r: Option<int>)
    ensures r.Some? ==> r.value > 0 && Contains(buf, CONTENT_LENGTH)
    ensures !Contains(buf, CONTENT_LENGTH) ==> r.None?
  {
    match Find(buf, CONTENT_LENGTH)
    case None => None
    case Some(i) =>
      var after := buf[i + |CONTENT_LENGTH|..];
      match Find(after, CRLF)
      case None => None
      case Some(j) =>
        var v := Atoi(after[..j]);
        if v <= 0 then None else Some(v)
  }

  /** A search for `pat` in `a + pat + b` stops at `pat` when `a` holds no
      first character of `pat`. */
  lemma FindAfterFree(a: string, pat: string, b: string)
    requires |pat| > 0 && pat[0] !in a
    ensures Find(a + pat + b, pat) == Some(|a|)
  {
    var s := a + pat + b;
    assert s[|a|..|a| + |pat|] == pat;
    assert OccursAt(s, pat, |a|);
    var r := Find(s, pat);
    assert r.value <= |a|;
    assert s[r.value..r.value + |pat|][0] == pat[0];
  }

  /** Six pieces of text joined as two: the first two, and the rest. */
  lemma Regroup(a: string, b: string, c: string, d: string, e: string, f: string)
    ensures a + b + c + d + e + f == (a + b) + (c + d + e + f)
    ensures (a + b + c + d + e + f)[|a| + |b|..] == c + d + e + f
  {
    assert a + b + c + d + e + f == (a + b) + (c + d + e + f);
  }

  /** atoi skips a leading blank. */
  lemma AtoiSkipsBlank(s: string)
    ensures Atoi(" " + s) == Atoi(s)
  {
    assert (" " + s)[1..] == s;
  }

  /** A blank followed by decimal digits holds no carriage return. */
  lemma BlankDigitsFree(d: string)
    requires AllDigits(d)
    ensures '\r' !in " " + d
  {
  }

  /** A header field "Content-Length: n" followed by "\r\n" reads as n when
      n is positive and the text before it does not itself hold the field
      name. */
  lemma ContentLengthOfField(pre: string, n: nat, post: string)
    requires n > 0
    requires Find(pre + CONTENT_LENGTH, CONTENT_LENGTH) == Some(|pre|)
    ensures ContentLength(pre + CONTENT_LENGTH + " " + NatToString(n) + CRLF + post) == Some(n)
  {
    var d := NatToString(n);
    var field := " " + d;
    var buf := pre + CONTENT_LENGTH + " " + d + CRLF + post;
    Regroup(pre, CONTENT_LENGTH, " ", d, CRLF, post);
    FindOfPrefix(pre + CONTENT_LENGTH, field + CRLF + post, CONTENT_LENGTH);
    var after := buf[|pre| + |CONTENT_LENGTH|..];
    BlankDigitsFree(d);
    FindAfterFree(field, CRLF, post);
    assert after[..|field|] == field;
    AtoiSkipsBlank(d);
    AtoiOfDigits(d, "");
    assert d + "" == d;
    DigitsValueOfNatToString(n);
  }

  // ---------------------------------------------------------------------------
  // The reply

  /** What one recv(fd, http_buf, BUFSIZE - 1, 0) call takes of the bytes
      the server has sent: at most BUFSIZE - 1 of them. */
  function Received(sent: string): (r: string)
    ensures |r| <= BUFSIZE - 1 && IsPrefix(r, sent)
    ensures |sent| <= BUFSIZE - 1 ==> r == sent
  {
    if |sent| <= BUFSIZE - 1 then sent else sent[..BUFSIZE - 1]
  }

  /** The checks both programs make on a reply: "200 OK" somewhere, a
      positive Content-Length, and the end of the header. Gives where the
      body starts and the declared length. strstr reads the reply as a C
      string, so the checks stop at its first NUL. */
  function ReplyParts(got: string): (r: Option<(nat, int)>)
    ensures r.Some? ==> Contains(CString(got), STATUS_OK) && ContentLength(CString(got)) == Some(r.value.1)
    ensures r.Some? ==> r.value.0 <= |got| && r.value.1 > 0
    ensures !Contains(CString(got), STATUS_OK) ==> r.None?
  {
    var text := CString(got);
    if !Contains(text, STATUS_OK) then None
    else match ContentLength(text)
      case None => None
      case Some(cl) =>
        match Find(text, HEADER_END)
        case None => None
        case Some(s) => Some((s + |HEADER_END|, cl))
  }

  // ---------------------------------------------------------------------------
  // Http_client_post_para

  const PARA_1: string := "POST /"
  const PARA_2: string := " HTTP/1.0\r\nHOST: "
  const PARA_3: string := "\r\nAccept: */*\r\nContent-Type:application/x-www-form-urlencoded\r\n"

  /** The request line and the Host field for a URL, followed by `fields`. */
  function Head(u: Url, fields: string): string {
    PARA_1 + u.path.GetOr("") + PARA_2 + u.host + ":" + IntToString(u.port) + fields
  }

  /** The form request up to and excluding the Content-Length field. */
  function ParaHead(u: Url): string {
    Head(u, PARA_3)
  }

  /** HTTP_POST_PARA_STR filled in: the URL's path, host and port, the
      length of the parameter and the parameter. */
  function ParaRequest(u: Url, post: string): string {
    ParaHead(u) + CONTENT_LENGTH + " " + NatToString(|post|) + CRLF + CRLF + post
  }

  /** The request declares the length of the parameter it carries, as the
      programs' own reader reads it back, when the parameter is not empty
      and the path and host do not hold the field name. */
  lemma ParaRequestDeclaresLength(u: Url, post: string)
    requires |post| > 0
    requires Find(ParaHead(u) + CONTENT_LENGTH, CONTENT_LENGTH) == Some(|ParaHead(u)|)
    ensures ContentLength(ParaRequest(u, post)) == Some(|post|)
  {
    var pre := ParaHead(u);
    assert ParaRequest(u, post) == pre + CONTENT_LENGTH + " " + NatToString(|post|) + CRLF + (CRLF + post);
    ContentLengthOfField(pre, |post|, CRLF + post);
  }

  /** The bytes of http_buf after the reply arrived: recv overwrote the
      front with `got` and a NUL was put after it; behind that lies what is
      left of the request snprintf formatted there, with its NUL. Anything
      further was never written. */
  function BufferAfterReply(request: string, got: string): (r: string)
    ensures |r| >= |got| + 1 && r[..|got|] == got && r[|got|] == '\0'
  {
    got + ['\0'] + (if |got| + 1 <= |request| then request[|got| + 1..] + ['\0'] else [])
  }

  /** The result string as written: std::string(result_start + 4,
      content_length) copies content_length bytes of http_buf however many
      arrived; None when that reaches bytes nobody wrote. */
  function BodyAsWritten(buffer: string, start: nat, cl: int): (r: Option<string>)
    requires cl > 0
    ensures r.Some? ==> |r.value| == cl
  {
    if start + cl <= |buffer| then Some(buffer[start..start + cl]) else None
  }

  /** The corrected result: the received bytes after the header, up to the
      declared length. */
  function Body(got: string, start: nat, cl: int): (r: string)
    requires start <= |got| && cl > 0
    ensures IsPrefix(r, got[start..]) && |r| <= cl
    ensures |r| < cl ==> r == got[start..]
  {
    if start + cl <= |got| then got[start..start + cl] else got[start..]
  }

  /** What Http_client_post_para returns and the result string it leaves
      (None: bytes nobody wrote). */
  datatype Post = Post(code: int, result: Option<string>)

  /** Http_client_post_para(url, post_str, result_str) with the result
      string starting empty: -1 for a URL it refuses, -2 when the request
      does not fit in BUFSIZE - 1 bytes, -3 when the connection fails, -4
      when the reply lacks "200 OK", a Content-Length or the end of the
      header; otherwise 0, also when recv gives nothing. `connects` is the
      outcome of name lookup, socket and connect; `sent` the bytes the
      server has sent when recv is called. */
  function PostParaWith(url: Option<string>, post: string, connects: bool, sent: string, asWritten: bool): (r: Post)
    ensures ParseUrl(url).None? ==> r == Post(-1, Some(""))
    ensures ParseUrl(url).Some? && |ParaRequest(ParseUrl(url).value, CString(post))| >= BUFSIZE - 1 ==> r == Post(-2, Some(""))
    ensures r.code == -3 <==> ParseUrl(url).Some? && |ParaRequest(ParseUrl(url).value, CString(post))| < BUFSIZE - 1 && !connects
    ensures r.code in {0, -1, -2, -3, -4}
    ensures r.code != 0 ==> r.result == Some("")
    ensures r.code == -4 ==> ReplyParts(Received(sent)).None?
    ensures r.code == -3 || r.code == -4 ==> ParseUrl(url).Some?
    ensures ParseUrl(url).Some? && |ParaRequest(ParseUrl(url).value, CString(post))| < BUFSIZE - 1 && connects && sent == "" ==>
      r == Post(0, Some(""))
    ensures !asWritten ==> r.result.Some? && (r.result.value != "" ==> (r.code == 0 && connects &&
      var p := ReplyParts(Received(sent));
      p.Some? && IsPrefix(r.result.value, Received(sent)[p.value.0..]) && |r.result.value| <= p.value.1))
  {
    match ParseUrl(url)
    case None => Post(-1, Some(""))
    case Some(u) =>
      var request := ParaRequest(u, CString(post));
      if |request| >= BUFSIZE - 1 then Post(-2, Some(""))
      else if !connects then Post(-3, Some(""))
      else
        var got := Received(sent);
        if got == "" then Post(0, Some(""))
        else match ReplyParts(got)
          case None => Post(-4, Some(""))
          case Some((start, cl)) =>
            if asWritten then Post(0, BodyAsWritten(BufferAfterReply(request, got), start, cl))
            else Post(0, Some(Body(got, start, cl)))
  }

  function PostParaAsWritten(url: Option<string>, post: string, connects: bool, sent: string): Post {
    PostParaWith(url, post, connects, sent, true)
  }

  /** The corrected post hands back only bytes of the reply: what follows
      the header, up to the declared length. */
  function PostPara(url: Option<string>, post: string, connects: bool, sent: string): (r: Post)
    ensures r.result.Some?
    ensures r.result.value != "" ==> (r.code == 0 && connects &&
      var p := ReplyParts(Received(sent));
      p.Some? && IsPrefix(r.result.value, Received(sent)[p.value.0..]) && |r.result.value| <= p.value.1)
  {
    PostParaWith(url, post, connects, sent, false)
  }

  /** A reply whose body is shorter than its Content-Length gives, as
      written, a result holding the NUL after the reply and then bytes of
      the request that was sent, not bytes of the reply. */
  lemma ShortBodyReadsRequest(url: Option<string>, post: string, sent: string, start: nat, cl: int)
    requires ParseUrl(url).Some?
    requires var request := ParaRequest(ParseUrl(url).value, CString(post));
      |request| < BUFSIZE - 1 && |sent| + 1 < |request| && |sent| < start + cl <= |request|
    requires sent != "" && ReplyParts(sent) == Some((start, cl))
    ensures var request := ParaRequest(ParseUrl(url).value, CString(post));
      PostParaAsWritten(url, post, true, sent) ==
        Post(0, Some(sent[start..] + ['\0'] + request[|sent| + 1..start + cl]))
    ensures PostPara(url, post, true, sent) == Post(0, Some(sent[start..]))
  {
    var request := ParaRequest(ParseUrl(url).value, CString(post));
    assert Received(sent) == sent;
    ShortBodyOfBuffer(request, sent, start, cl);
  }

  /** A body shorter than declared runs, in the buffer, over the NUL after
      the reply into what is left of the request. */
  lemma ShortBodyOfBuffer(request: string, got: string, start: nat, cl: int)
    requires cl > 0 && |got| + 1 < |request| && start <= |got| < start + cl <= |request|
    ensures BodyAsWritten(BufferAfterReply(request, got), start, cl) ==
      Some(got[start..] + ['\0'] + request[|got| + 1..start + cl])
  {
    var rest := request[|got| + 1..] + ['\0'];
    var buffer := got + ['\0'] + rest;
    var n := start + cl - |got| - 1;
    assert rest[..n] == request[|got| + 1..start + cl];
    assert buffer[start..start + cl] == got[start..] + ['\0'] + rest[..n];
  }

  /** main: usage (exit 1) unless there are a URL and a parameter; otherwise
      the post is made and the program exits 0 whatever it returned. */
  function ParaMain(argv: seq<string>, connects: bool, sent: string): (r: (int, Option<Post>))
    ensures |argv| != 3 <==> r == (1, None)
    ensures |argv| == 3 ==> r.0 == 0 && r.1 == Some(PostPara(Some(argv[1]), argv[2], connects, sent))
  {
    if |argv| != 3 then (1, None)
    else (0, Some(PostPara(Some(argv[1]), argv[2], connects, sent)))
  }

  // ---------------------------------------------------------------------------
  // Http_client_get_filename

  /** The name of a file: what follows the last '/' of its path, or the
      whole path without one. */
  function FileName(filepath: string): string {
    SplitAtLast(CString(filepath), '/').1
  }

  /** Http_client_get_filename: the loop steps past every '/' it finds;
      true when the name left is not empty. */
  method GetFilename(filepath: string) returns (name: string, ok: bool)
    ensures name == FileName(filepath)
    ensures var path := CString(filepath);
      '/' !in name && |name| <= |path| && name == path[|path| - |name|..] &&
      (name == path || path[|path| - |name| - 1] == '/')
    ensures ok <==> name != ""
  {
    var path := CString(filepath);
    var start := 0;
    while true
      invariant start <= |path|
      invariant start == 0 || path[start - 1] == '/'
      decreases |path| - start
    {
      match FindChar(path[start..], '/')
      case None =>
        break;
      case Some(j) =>
        start := start + j + 1;
    }
    name := path[start..];
    ok := |name| > 0;
    LastSlash(path, start);
  }

  /** When `s` has no '/' from `start` on and `start` is 0 or follows a '/',
      the text from `start` is what follows the last '/'. */
  lemma LastSlash(s: string, start: nat)
    requires start <= |s| && '/' !in s[start..]
    requires start == 0 || s[start - 1] == '/'
    ensures SplitAtLast(s, '/').1 == s[start..]
  {
    var r := SplitAtLast(s, '/');
    if start == 0 {
      assert s[0..] == s;
    } else {
      assert s[start - 1] == '/';
      assert '/' in s;
      var k := |s| - |r.1|;
      assert s == r.0 + ['/'] + r.1;
      assert s[k..] == r.1 && s[k - 1] == '/';
    }
  }

  // ---------------------------------------------------------------------------
  // Http_client_post_file

  const BOUNDARY_LINE: string := "------WebKitFormBoundaryZjrentBBjYWJ7gXp\r\n"
  const FILE_FIELDS: string := "\r\nAccept: */*\r\nContent-Type: multipart/form-data; boundary=----WebKitFormBoundaryZjrentBBjYWJ7gXp\r\n"
  const PARAMETERS_PART: string := "Content-Disposition: form-data; name=\"parameters\"\r\n\r\n"
  const FILENAME_PART: string := "Content-Disposition: form-data; name=\"filename\"; filename=\""
  const OCTET_STREAM: string := "\"\r\nContent-Type: application/octet-stream\r\n\r\n"
  const FILE_TAIL: string := "\r\n------WebKitFormBoundaryZjrentBBjYWJ7gXp--\r\n"

  /** HTTP_POST_FILE_STR2 filled in: the parameter part and the head of the
      file part of the multipart body. */
  function FilePart(post: string, filename: string): string {
    BOUNDARY_LINE + PARAMETERS_PART + post + CRLF + BOUNDARY_LINE + FILENAME_PART + filename + OCTET_STREAM
  }

  /** HTTP_POST_FILE_STR1 filled in: the request header declaring `contentlen`
      bytes of body, up to and including the blank line. */
  function FileHead(u: Url, contentlen: nat): string {
    Head(u, FILE_FIELDS) + CONTENT_LENGTH + " " + NatToString(contentlen) + CRLF + CRLF
  }

  /** The body the file post declares: the multipart text around the file
      plus the size stat reported. */
  function FileContentLength(part: string, size: nat): (r: nat)
    ensures r > |part| + size
  {
    |part| + size + |FILE_TAIL|
  }

  /** The end of what the second snprintf writes into http_buf, which holds
      BUFSIZE bytes, when the header took `n` of them. As written it is
      given the size of the whole buffer from offset `n`, so it may write up
      to BUFSIZE bytes there; corrected, it is given what is left of the
      buffer and writes nothing (None) when the header filled it. */
  function PartWriteEnd(n: nat, part: string, asWritten: bool): (r: Option<nat>)
    ensures asWritten ==> r == Some(n + Min(|part|, BUFSIZE - 1) + 1)
    ensures !asWritten && r.Some? ==> n < r.value <= BUFSIZE
    ensures !asWritten ==> (r.None? <==> n >= BUFSIZE)
  {
    if asWritten then Some(n + Min(|part|, BUFSIZE - 1) + 1)
    else if n < BUFSIZE then Some(n + Min(|part|, BUFSIZE - n - 1) + 1)
    else None
  }

  /** Whether the second snprintf stays inside http_buf. */
  predicate PartInBounds(n: nat, part: string, asWritten: bool) {
    match PartWriteEnd(n, part, asWritten)
    case None => true
    case Some(e) => e <= BUFSIZE
  }

  /** The reply body after the first recv, grown by each further recv until
      it holds at least the declared length: None when the recv results
      given run out first (the program would wait for more). */
  function Accumulate(body: string, cl: int, more: seq<string>): (r: Option<string>)
    ensures r.Some? <==> |body + Concat(more)| >= cl
    ensures r.Some? ==> |r.value| >= cl && IsPrefix(r.value, body + Concat(more))
    ensures |body| >= cl ==> r == Some(body)
    decreases |more|
  {
    if |body| >= cl then Some(body)
    else if more == [] then None
    else
      assert body + Concat(more) == (body + more[0]) + Concat(more[1..]);
      Accumulate(body + more[0], cl, more[1..])
  }

  /** What Http_client_post_file returns, the result string it leaves (None:
      still waiting for the declared length), and whether every byte it
      formatted stayed inside http_buf. */
  datatype FilePost = FilePost(code: int, result: Option<string>, inBounds: bool)

  /** The reply to a file post: 0 with an empty result when recv gives
      nothing, -6 when the reply lacks "200 OK", a Content-Length or the end
      of the header, otherwise 0 with the body read up to its declared
      length. */
  function FileReply(sent: string, more: seq<string>): (r: (int, Option<string>))
    ensures r.0 == 0 || r.0 == -6
    ensures r.0 == -6 <==> Received(sent) != "" && ReplyParts(Received(sent)).None?
    ensures r.0 == -6 || Received(sent) == "" ==> r.1 == Some("")
    ensures r.1.Some? && r.1.value != "" ==>
      var p := ReplyParts(Received(sent));
      p.Some? && IsPrefix(r.1.value, Received(sent)[p.value.0..] + Concat(more)) && |r.1.value| >= p.value.1
  {
    var got := Received(sent);
    if got == "" then (0, Some(""))
    else match ReplyParts(got)
      case None => (-6, Some(""))
      case Some((start, cl)) => (0, Accumulate(got[start..], cl, more))
  }

  /** The file post once the URL is parsed, with `n` bytes of header and
      the multipart head `part`: -2 when they do not fit in BUFSIZE - 1
      bytes, -3 when the connection fails, -5 when the file does not open,
      otherwise the reply. */
  function FileExchange(n: nat, part: string, connects: bool, opens: bool, sent: string,
                        more: seq<string>, asWritten: bool): (r: FilePost)
    ensures r.code == -2 <==> n + |part| >= BUFSIZE - 1
    ensures r.inBounds <==> PartInBounds(n, part, asWritten)
    ensures !asWritten ==> r.inBounds
    ensures n + |part| < BUFSIZE - 1 ==> (r.code == -3 <==> !connects) && (r.code == -5 <==> connects && !opens)
    ensures n + |part| < BUFSIZE - 1 && connects && opens ==> (r.code, r.result) == FileReply(sent, more)
    ensures r.code in {0, -2, -3, -5, -6}
    ensures r.code != 0 ==> r.result == Some("")
    ensures r.code == 0 && r.result.Some? && r.result.value != "" ==>
      var p := ReplyParts(Received(sent));
      p.Some? && IsPrefix(r.result.value, Received(sent)[p.value.0..] + Concat(more)) && |r.result.value| >= p.value.1
  {
    var inBounds := PartInBounds(n, part, asWritten);
    if n + |part| >= BUFSIZE - 1 then FilePost(-2, Some(""), inBounds)
    else if !connects then FilePost(-3, Some(""), inBounds)
    else if !opens then FilePost(-5, Some(""), inBounds)
    else
      var (code, result) := FileReply(sent, more);
      FilePost(code, result, inBounds)
  }

  /** Http_client_post_file(url, post_str, filepath, result_str) with the
      result string starting empty: -4 when stat finds no file (before the
      URL is looked at), -1 for a URL it refuses, then as FileExchange with
      the header declaring the multipart head, the file and the closing
      boundary. `size` is what stat reports, `opens` the outcome of fopen,
      `sent` the bytes the server has sent before the first recv and `more`
      what each later recv gives. */
  function PostFileWith(url: Option<string>, post: string, filepath: string, size: Option<nat>,
                        connects: bool, opens: bool, sent: string, more: seq<string>, asWritten: bool): (r: FilePost)
    ensures size.None? <==> r == FilePost(-4, Some(""), true)
    ensures size.Some? && ParseUrl(url).None? <==> r == FilePost(-1, Some(""), true)
    ensures size.Some? && ParseUrl(url).Some? ==>
      var part := FilePart(CString(post), FileName(filepath));
      var n := |FileHead(ParseUrl(url).value, FileContentLength(part, size.value))|;
      r == FileExchange(n, part, connects, opens, sent, more, asWritten)
    ensures !asWritten ==> r.inBounds
    ensures r.code == 0 && r.result.Some? && r.result.value != "" ==>
      var p := ReplyParts(Received(sent));
      p.Some? && IsPrefix(r.result.value, Received(sent)[p.value.0..] + Concat(more)) && |r.result.value| >= p.value.1
  {
    if size.None? then FilePost(-4, Some(""), true)
    else
      var part := FilePart(CString(post), FileName(filepath));
      var contentlen := FileContentLength(part, size.value);
      match ParseUrl(url)
      case None => FilePost(-1, Some(""), true)
      case Some(u) => FileExchange(|FileHead(u, contentlen)|, part, connects, opens, sent, more, asWritten)
  }

  function PostFileAsWritten(url: Option<string>, post: string, filepath: string, size: Option<nat>,
                             connects: bool, opens: bool, sent: string, more: seq<string>): FilePost {
    PostFileWith(url, post, filepath, size, connects, opens, sent, more, true)
  }

  /** The corrected file post formats nothing outside http_buf, and a result
      it hands back is what followed the header of the reply and the later
      recv results, as much of them as reaches the declared length. */
  function PostFile(url: Option<string>, post: string, filepath: string, size: Option<nat>,
                    connects: bool, opens: bool, sent: string, more: seq<string>): (r: FilePost)
    ensures r.inBounds
    ensures r.code == 0 && r.result.Some? && r.result.value != "" ==>
      var p := ReplyParts(Received(sent));
      p.Some? && IsPrefix(r.result.value, Received(sent)[p.value.0..] + Concat(more)) && |r.result.value| >= p.value.1
  {
    PostFileWith(url, post, filepath, size, connects, opens, sent, more, false)
  }

  /** A parameter long enough that the multipart head overruns what is left
      of http_buf makes the second snprintf, as written, write past its end,
      before the length check refuses the post with -2. */
  lemma LongParameterOverflows(url: Option<string>, post: string, filepath: string, size: nat,
                               connects: bool, opens: bool, sent: string, more: seq<string>)
    requires ParseUrl(url).Some?
    requires var part := FilePart(CString(post), FileName(filepath));
      var n := |FileHead(ParseUrl(url).value, FileContentLength(part, size))|;
      n + |part| >= BUFSIZE
    ensures !PostFileAsWritten(url, post, filepath, Some(size), connects, opens, sent, more).inBounds
    ensures PostFileAsWritten(url, post, filepath, Some(size), connects, opens, sent, more).code == -2
    ensures PostFile(url, post, filepath, Some(size), connects, opens, sent, more) ==
      FilePost(-2, Some(""), true)
  {
    var part := FilePart(CString(post), FileName(filepath));
    var n := |FileHead(ParseUrl(url).value, FileContentLength(part, size))|;
    assert PostFileAsWritten(url, post, filepath, Some(size), connects, opens, sent, more) ==
      FileExchange(n, part, connects, opens, sent, more, true);
    AsWrittenOverruns(n, part);
    assert PostFile(url, post, filepath, Some(size), connects, opens, sent, more) ==
      FileExchange(n, part, connects, opens, sent, more, false);
  }

  /** As written, a multipart head reaching past the buffer is written past
      it. */
  lemma AsWrittenOverruns(n: nat, part: string)
    requires 0 < n && BUFSIZE <= n + |part|
    ensures !PartInBounds(n, part, true)
  {
  }

  /** The file request declares exactly the length of the body that follows
      its header: the multipart head, the file's bytes and the closing
      boundary, as the programs' own reader reads the field back, when the
      path and host do not hold the field name. */
  lemma FileRequestDeclaresLength(u: Url, post: string, filename: string, file: string)
    requires Find(Head(u, FILE_FIELDS) + CONTENT_LENGTH, CONTENT_LENGTH) == Some(|Head(u, FILE_FIELDS)|)
    ensures var part := FilePart(post, filename);
      var body := part + file + FILE_TAIL;
      |body| == FileContentLength(part, |file|) &&
      ContentLength(FileHead(u, |body|) + body) == Some(|body|)
  {
    var part := FilePart(post, filename);
    var body := part + file + FILE_TAIL;
    var pre := Head(u, FILE_FIELDS);
    var d := NatToString(|body|);
    assert FileHead(u, |body|) + body == pre + CONTENT_LENGTH + " " + d + CRLF + (CRLF + body);
    ContentLengthOfField(pre, |body|, CRLF + body);
  }

  /** main: usage (exit 1) unless there are a URL, a parameter and a file
      path; otherwise the post is made and the program exits 0 whatever it
      returned. */
  function FileMain(argv: seq<string>, size: Option<nat>, connects: bool, opens: bool,
                    sent: string, more: seq<string>): (r: (int, Option<FilePost>))
    ensures |argv| != 4 <==> r == (1, None)
    ensures |argv| == 4 ==> r.0 == 0 && r.1 == Some(PostFile(Some(argv[1]), argv[2], argv[3], size, connects, opens, sent, more))
  {
    if |argv| != 4 then (1, None)
    else (0, Some(PostFile(Some(argv[1]), argv[2], argv[3], size, connects, opens, sent, more)))
  }
}
