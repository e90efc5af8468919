/**
 * The HTTP traffic log formatter of heimdall (`RequestResponseFormatter` in
 * src/heimdall/utils/logger.py): it renders an optional captured request and an
 * optional response as text appended to an already formatted log line.
 *
 * The optional syntax highlighter is the fallback used when pygments is absent,
 * `highlight(c) == c + "\n"`. Re-serialising JSON and prettifying HTML are done by
 * foreign libraries; they are the two fields of `Parsers`, where `None` stands for
 * the exceptions the formatter suppresses.
 */
module Logger {
  import opened Wrappers
  import opened PyStr

  newtype uint8 = x: int | 0 <= x < 256

  /** A header mapping in its iteration order. */
  type Headers = seq<(string, string)>

  /** A `str` or a `bytes` value. */
  datatype Payload = Text(text: string) | Bytes(data: seq<uint8>)

  /** What a request may carry as its body: `None`, text or bytes, or any other object. */
  datatype Body = NoBody | Content(payload: Payload) | Opaque(truthy: bool)

  /** The fields of a prepared request that the formatter reads; `verb` is its `method`. */
  datatype Request = Request(verb: string, pathUrl: string, headers: Headers, body: Body)

  /** The fields of a response that the formatter reads; `rawVersion` is urllib3's integer version. */
  datatype Response = Response(
    rawVersion: int, statusCode: int, reason: string,
    headers: Headers, text: string, request: Option<Request>)

  /** An attribute of a log record, which may be missing altogether. */
  datatype Attr<T> = Absent | Present(value: T)

  /** The extra attributes a log record may carry. */
  datatype LogRecord = LogRecord(request: Attr<Option<Request>>, response: Attr<Option<Response>>)

  /** The exception that escapes `format`: adding `"\n"` to a `bytes` body. */
  datatype FormatError = TypeError

  /**
   * `json.dumps(json.loads(body), indent=2, sort_keys=True)` and
   * `BeautifulSoup(body, "html.parser").prettify()`; `None` when they raise
   * `JSONDecodeError` or `AttributeError`.
   */
  datatype Parsers = Parsers(jsonReformat: Payload -> Option<string>, htmlPrettify: Payload -> Option<string>)

  /** Header names never shown; matched exactly, case included. */
  const IgnoreHeaders: seq<string> := [
    "Cache-Control",
    "Content-Security-Policy",
    "Cookie",
    "Set-Cookie",
    "Strict-Transport-Security",
    "X-Content-Security-Policy",
    "X-WebKit-CSP",
    "X-Content-Type-Options",
    "X-XSS-Protection",
    "X-Frame-Options"
  ]

  /** The HTTP version every request status line shows. */
  const RequestHttpVersion: string := "1.1"

  /** The highlighter used when pygments is not installed. */
  function Highlight(content: string): (r: string)
    ensures StartsWith(r, content) && |r| == |content| + 1 && r[|content|] == '\n'
  {
    content + "\n"
  }

  predicate PayloadTruthy(p: Payload)
  {
    match p
    case Text(t) => |t| > 0
    case Bytes(b) => |b| > 0
  }

  predicate BodyTruthy(body: Body)
  {
    match body
    case NoBody => false
    case Content(p) => PayloadTruthy(p)
    case Opaque(truthy) => truthy
  }

  predicate ContentTypeTruthy(contentType: Option<string>)
  {
    contentType.Some? && |contentType.value| > 0
  }

  // ---------------------------------------------------------------------------
  // format_body

  /** `format_body(body, content_type)` */
  function FormatBody(p: Parsers, body: Body, contentType: Option<string>): (r: Payload)
    ensures r.Bytes? ==> body == Content(r)
  {
    if !ContentTypeTruthy(contentType) then Text("<unknown>")
    else if !BodyTruthy(body) then Text("<empty>")
    else if body.Opaque? then Text("<binary>")
    else if Contains(contentType.value, "application/json") then
      match p.jsonReformat(body.payload)
      case Some(content) => Text(Highlight(content))
      case None => body.payload
    else if Contains(contentType.value, "text/html") then
      match p.htmlPrettify(body.payload)
      case Some(content) => Text(Highlight(content))
      case None => body.payload
    else body.payload
  }

  /** The placeholders, and the order in which their checks are made. */
  lemma FormatBodyPlaceholders(p: Parsers, body: Body, contentType: Option<string>)
    ensures !ContentTypeTruthy(contentType) ==> FormatBody(p, body, contentType) == Text("<unknown>")
    ensures ContentTypeTruthy(contentType) && !BodyTruthy(body) ==> FormatBody(p, body, contentType) == Text("<empty>")
    ensures ContentTypeTruthy(contentType) && body == Opaque(true) ==> FormatBody(p, body, contentType) == Text("<binary>")
  {
  }

  /**
   * Any content type mentioning `application/json` takes the JSON path: the
   * re-serialised document, highlighted, or the body unchanged when parsing fails.
   */
  lemma FormatBodyJson(p: Parsers, payload: Payload, pre: string, post: string)
    requires PayloadTruthy(payload)
    ensures FormatBody(p, Content(payload), Some(pre + "application/json" + post)) ==
      match p.jsonReformat(payload)
      case Some(content) => Text(content + "\n")
      case None => payload
  {
    ContainsInfix(pre, "application/json", post);
  }

  /** JSON is tried before HTML: a content type naming both never reaches the HTML prettifier. */
  lemma FormatBodyJsonBeforeHtml(p: Parsers, payload: Payload, pre: string, mid: string, post: string)
    requires PayloadTruthy(payload)
    ensures FormatBody(p, Content(payload), Some(pre + "text/html" + mid + "application/json" + post)) ==
      match p.jsonReformat(payload)
      case Some(content) => Text(content + "\n")
      case None => payload
  {
    FormatBodyJson(p, payload, pre + "text/html" + mid, post);
  }

  /** A content type mentioning `text/html` but not `application/json` takes the HTML path. */
  lemma FormatBodyHtml(p: Parsers, payload: Payload, pre: string, post: string)
    requires PayloadTruthy(payload)
    requires !Contains(pre + "text/html" + post, "application/json")
    ensures FormatBody(p, Content(payload), Some(pre + "text/html" + post)) ==
      match p.htmlPrettify(payload)
      case Some(content) => Text(content + "\n")
      case None => payload
  {
    ContainsInfix(pre, "text/html", post);
  }

  /** A content type mentioning neither kind leaves a non-empty body untouched. */
  lemma FormatBodyPassthrough(p: Parsers, payload: Payload, contentType: string)
    requires PayloadTruthy(payload) && |contentType| > 0
    requires !Contains(contentType, "application/json") && !Contains(contentType, "text/html")
    ensures FormatBody(p, Content(payload), Some(contentType)) == payload
  {
  }

  /** The body comes back as bytes exactly when a non-empty bytes body is passed through unconverted. */
  lemma FormatBodyBytesIff(p: Parsers, body: Body, contentType: Option<string>)
    ensures FormatBody(p, body, contentType).Bytes? <==>
      ContentTypeTruthy(contentType) && body.Content? && body.payload.Bytes? && |body.payload.data| > 0 &&
      (if Contains(contentType.value, "application/json") then p.jsonReformat(body.payload).None?
       else !Contains(contentType.value, "text/html") || p.htmlPrettify(body.payload).None?)
  {
  }

  // ---------------------------------------------------------------------------
  // format_headers

  /** The headers that survive the deny-list, in their original order. */
  function KeptHeaders(hs: Headers): (r: Headers)
    ensures |r| <= |hs|
    ensures forall k :: 0 <= k < |r| ==> r[k].0 !in IgnoreHeaders
  {
    if |hs| == 0 then []
    else (if hs[0].0 in IgnoreHeaders then [] else [hs[0]]) + KeptHeaders(hs[1..])
  }

  /** A header is shown exactly when it is present and its name is not on the deny-list. */
  lemma {:induction false} KeptHeadersMembership(hs: Headers)
    ensures forall h :: h in KeptHeaders(hs) <==> h in hs && h.0 !in IgnoreHeaders
  {
    if |hs| > 0 {
      KeptHeadersMembership(hs[1..]);
      assert hs == [hs[0]] + hs[1..];
    }
  }

  /** Filtering keeps order: it distributes over concatenation. */
  lemma {:induction false} KeptHeadersAppend(a: Headers, b: Headers)
    ensures KeptHeaders(a + b) == KeptHeaders(a) + KeptHeaders(b)
  {
    if |a| > 0 {
      assert (a + b)[1..] == a[1..] + b;
      KeptHeadersAppend(a[1..], b);
    } else {
      assert a + b == b;
    }
  }

  function HeaderLine(h: (string, string)): string
  {
    h.0 + ": " + h.1
  }

  /** The lines `format_headers` joins: the prefix, then one `name: value` per kept header. */
  function HeaderLines(prefix: string, hs: Headers): seq<string>
  {
    var kept := KeptHeaders(hs);
    [prefix] + seq(|kept|, k requires 0 <= k < |kept| => HeaderLine(kept[k]))
  }

  /** `format_headers(prefix, headers)` */
  function FormatHeaders(prefix: string, hs: Headers): (r: string)
    ensures StartsWith(r, prefix)
    ensures |r| > 0 && r[|r| - 1] == '\n'
  {
    var lines := HeaderLines(prefix, hs);
    assert Join("\n", lines)[..|prefix|] == prefix by {
      if |lines| > 1 {
        assert Join("\n", lines) == prefix + ("\n" + Join("\n", lines[1..]));
      }
    }
    Highlight(Join("\n", lines))
  }

  /**
   * Read back line by line, the header block is the prefix, then `name: value`
   * for each kept header in order, then the empty line after the trailing newline.
   */
  lemma FormatHeadersLines(prefix: string, hs: Headers)
    requires '\n' !in prefix
    requires forall h | h in hs :: '\n' !in HeaderLine(h)
    ensures var lines := Split(FormatHeaders(prefix, hs), '\n');
            var kept := KeptHeaders(hs);
            |lines| == |kept| + 2 && lines[0] == prefix && lines[|lines| - 1] == "" &&
            forall k :: 0 <= k < |kept| ==> lines[k + 1] == kept[k].0 + ": " + kept[k].1
  {
    var lines := HeaderLines(prefix, hs);
    KeptHeadersMembership(hs);
    JoinSnoc("\n", lines, "");
    assert Join("\n", lines) + "\n" == Join("\n", lines + [""]);
    forall k | 0 <= k < |lines + [""]|
      ensures '\n' !in (lines + [""])[k]
    {
      if 0 < k < |lines| {
        assert KeptHeaders(hs)[k - 1] in KeptHeaders(hs);
      }
    }
    SplitJoin(lines + [""], '\n');
  }

  /** The deny-list is matched case-sensitively. */
  lemma HeaderFilterIsCaseSensitive()
    ensures KeptHeaders([("Set-Cookie", "x"), ("X-Custom", "y"), ("set-cookie", "z")]) ==
      [("X-Custom", "y"), ("set-cookie", "z")]
  {
  }

  /** `headers.get(name)` on a case-insensitive header mapping (ASCII case folding). */
  function GetHeader(hs: Headers, name: string): (r: Option<string>)
    ensures r.Some? ==> exists i :: 0 <= i < |hs| && EqualsIgnoreCase(hs[i].0, name) && hs[i].1 == r.value
    ensures r.None? ==> forall i :: 0 <= i < |hs| ==> !EqualsIgnoreCase(hs[i].0, name)
    decreases |hs|
  {
    if |hs| == 0 then None
    else if EqualsIgnoreCase(hs[0].0, name) then Some(hs[0].1)
    else GetHeader(hs[1..], name)
  }

  /** `headers.get("Content-Type")`: the value of the first header named so, in any case. */
  function ContentType(hs: Headers): (r: Option<string>)
    ensures r.Some? ==> exists i :: 0 <= i < |hs| && EqualsIgnoreCase(hs[i].0, "Content-Type") && hs[i].1 == r.value
    ensures r.None? ==> forall i :: 0 <= i < |hs| ==> !EqualsIgnoreCase(hs[i].0, "Content-Type")
  {
    GetHeader(hs, "Content-Type")
  }

  // ---------------------------------------------------------------------------
  // format_request and format_response

  /** `"{method} {path_url} HTTP/1.1"`: the version is the same for every request. */
  function RequestStatusLine(req: Request): (r: string)
    ensures StartsWith(r, req.verb + " " + req.pathUrl + " ")
    ensures |r| >= 9 && r[|r| - 9..] == " HTTP/1.1"
    ensures |r| == |req.verb| + |req.pathUrl| + 10
  {
    req.verb + " " + req.pathUrl + " HTTP/" + RequestHttpVersion
  }

  /** `format_request(request)`; fails where the body is `bytes` passed through unchanged. */
  function FormatRequest(p: Parsers, req: Request): (r: Result<string, FormatError>)
    ensures r.Ok? ==> StartsWith(r.value, RequestStatusLine(req) + "\n")
    ensures r.Ok? ==> r.value[|r.value| - 1] == '\n'
    ensures match FormatBody(p, req.body, ContentType(req.headers))
            case Text(body) => r == Ok(FormatHeaders(RequestStatusLine(req), req.headers) + "\n" + body + "\n")
            case Bytes(_) => r == Err(TypeError)
  {
    var head := FormatHeaders(RequestStatusLine(req), req.headers);
    match FormatBody(p, req.body, ContentType(req.headers))
    case Text(body) =>
      assert StartsWith(head, RequestStatusLine(req) + "\n") by {
        var lines := HeaderLines(RequestStatusLine(req), req.headers);
        if |lines| > 1 {
          assert Join("\n", lines) == RequestStatusLine(req) + "\n" + Join("\n", lines[1..]);
        }
      }
      var out := Join("\n", [head, body + "\n"]);
      JoinPair("\n", head, body + "\n");
      assert out == head + "\n" + body + "\n";
      Ok(out)
    case Bytes(_) => Err(TypeError)
  }

  /** The request block fails exactly when its body is non-empty bytes that neither parser converted. */
  lemma FormatRequestFailsIff(p: Parsers, req: Request)
    ensures FormatRequest(p, req).Err? <==>
      ContentTypeTruthy(ContentType(req.headers)) && req.body.Content? && req.body.payload.Bytes? &&
      |req.body.payload.data| > 0 && FormatBody(p, req.body, ContentType(req.headers)) == req.body.payload
  {
    FormatBodyBytesIff(p, req.body, ContentType(req.headers));
  }

  /** `response.raw.version` as a version string. */
  function HttpVersion(rawVersion: int): (r: string)
    ensures r in {"1.0", "1.1", "2.0", "unknown"}
    ensures r == "unknown" <==> rawVersion !in {10, 11, 20}
  {
    if rawVersion == 10 then "1.0"
    else if rawVersion == 11 then "1.1"
    else if rawVersion == 20 then "2.0"
    else "unknown"
  }

  /** The three known codes read as `major.minor` of their two digits. */
  lemma HttpVersionMeaning(rawVersion: int)
    ensures rawVersion in {10, 11, 20} ==>
      HttpVersion(rawVersion) == [DigitChar(rawVersion / 10), '.', DigitChar(rawVersion % 10)]
  {
  }

  /** `"HTTP/{version} {status_code} {reason}"` */
  function ResponseStatusLine(resp: Response): (r: string)
    ensures StartsWith(r, "HTTP/" + HttpVersion(resp.rawVersion) + " ")
    ensures |r| > |resp.reason| && r[|r| - |resp.reason| - 1..] == " " + resp.reason
    ensures |r| == 5 + |HttpVersion(resp.rawVersion)| + 1 + |IntToDecimal(resp.statusCode)| + 1 + |resp.reason|
  {
    "HTTP/" + HttpVersion(resp.rawVersion) + " " + IntToDecimal(resp.statusCode) + " " + resp.reason
  }

  /** The first field of the status line holds no space. */
  lemma VersionFieldHasNoSpace(rawVersion: int)
    ensures ' ' !in "HTTP/" + HttpVersion(rawVersion)
  {
    var version := HttpVersion(rawVersion);
    var v := "HTTP/" + version;
    assert ' ' !in version;
    assert forall k | 0 <= k < |v| :: v[k] == if k < 5 then "HTTP/"[k] else version[k - 5];
  }

  /** The decimal text of an integer holds no space. */
  lemma DecimalHasNoSpace(n: int)
    ensures ' ' !in IntToDecimal(n)
  {
    if n < 0 {
      assert IntToDecimal(n) == "-" + NatToDecimal(-n);
    }
  }

  /** Split on spaces, the status line gives back the version and the numeric status code. */
  lemma ResponseStatusLineFields(resp: Response)
    ensures var fields := Split(ResponseStatusLine(resp), ' ');
            |fields| >= 3 && fields[0] == "HTTP/" + HttpVersion(resp.rawVersion) &&
            fields[1] == IntToDecimal(resp.statusCode) && ParseInt(fields[1]) == resp.statusCode
  {
    var v := "HTTP/" + HttpVersion(resp.rawVersion);
    var code := IntToDecimal(resp.statusCode);
    assert ResponseStatusLine(resp) == v + [' '] + (code + [' '] + resp.reason);
    VersionFieldHasNoSpace(resp.rawVersion);
    DecimalHasNoSpace(resp.statusCode);
    SplitLeading(code, ' ', resp.reason);
    SplitLeading(v, ' ', code + " " + resp.reason);
    IntDecimalRoundTrip(resp.statusCode);
  }

  /** A 200 response over HTTP/1.1 with reason OK. */
  lemma ResponseStatusLineExample(headers: Headers, text: string, request: Option<Request>)
    ensures ResponseStatusLine(Response(11, 200, "OK", headers, text, request)) == "HTTP/1.1 200 OK"
  {
    assert NatToDecimal(200) == "200";
  }

  /** `format_response(response)` */
  function FormatResponse(p: Parsers, resp: Response): (r: string)
    ensures StartsWith(r, ResponseStatusLine(resp) + "\n")
    ensures var body := FormatBody(p, Content(Text(resp.text)), ContentType(resp.headers));
            body.Text? && r == FormatHeaders(ResponseStatusLine(resp), resp.headers) + "\n" + body.text
  {
    var head := FormatHeaders(ResponseStatusLine(resp), resp.headers);
    var body := FormatBody(p, Content(Text(resp.text)), ContentType(resp.headers));
    assert StartsWith(head, ResponseStatusLine(resp) + "\n") by {
      var lines := HeaderLines(ResponseStatusLine(resp), resp.headers);
      if |lines| > 1 {
        assert Join("\n", lines) == ResponseStatusLine(resp) + "\n" + Join("\n", lines[1..]);
      }
    }
    JoinPair("\n", head, body.text);
    Join("\n", [head, body.text])
  }

  // ---------------------------------------------------------------------------
  // format

  /** `getattr(record, "response", None)` */
  function ResolvedResponse(rec: LogRecord): (r: Option<Response>)
    ensures r.Some? <==> rec.response.Present? && rec.response.value.Some?
    ensures r.Some? ==> rec.response == Present(r)
  {
    match rec.response
    case Absent => None
    case Present(r) => r
  }

  /** `getattr(record, "request", getattr(response, "request", None))` */
  function ResolvedRequest(rec: LogRecord): (r: Option<Request>)
    ensures rec.request.Present? ==> r == rec.request.value
    ensures r.Some? && rec.request.Absent? ==>
      ResolvedResponse(rec).Some? && ResolvedResponse(rec).value.request == r
  {
    match rec.request
    case Present(r) => r
    case Absent =>
      match ResolvedResponse(rec)
      case Some(resp) => resp.request
      case None => None
  }

  /** An attached request attribute wins, even `None`; only a missing one defers to the response. */
  lemma ResolvedRequestPrecedence(rec: LogRecord, attached: Option<Request>, resp: Response)
    ensures ResolvedRequest(rec.(request := Present(attached))) == attached
    ensures ResolvedRequest(LogRecord(Absent, Present(Some(resp)))) == resp.request
    ensures ResolvedRequest(rec.(request := Absent, response := Absent)) == None
  {
  }

  /** The request block, if a request is attached (and truthy). */
  function RequestBlock(p: Parsers, rec: LogRecord): (r: Result<Option<string>, FormatError>)
    ensures r.Ok? ==> (r.value.Some? <==> ResolvedRequest(rec).Some?)
    ensures ResolvedRequest(rec).None? ==> r == Ok(None)
    ensures r.Ok? && r.value.Some? ==> |r.value.value| > 0 && r.value.value[|r.value.value| - 1] == '\n'
    ensures ResolvedRequest(rec).Some? ==>
      match FormatRequest(p, ResolvedRequest(rec).value)
      case Ok(block) => r == Ok(Some(block))
      case Err(e) => r == Err(e)
  {
    match ResolvedRequest(rec)
    case None => Ok(None)
    case Some(req) =>
      match FormatRequest(p, req)
      case Ok(block) => Ok(Some(block))
      case Err(e) => Err(e)
  }

  /** The response block, if a response is attached (`is not None`). */
  function ResponseBlock(p: Parsers, rec: LogRecord): (r: Option<string>)
    ensures r.Some? <==> ResolvedResponse(rec).Some?
    ensures r.Some? ==> StartsWith(r.value, ResponseStatusLine(ResolvedResponse(rec).value) + "\n")
    ensures r.Some? ==> r.value == FormatResponse(p, ResolvedResponse(rec).value)
  {
    match ResolvedResponse(rec)
    case None => None
    case Some(resp) => Some(FormatResponse(p, resp))
  }

  /** `msg[:-1] != "\n"`, the guard in front of each appended block. */
  predicate NeedsSeparator(msg: string)
  {
    DropLast(msg) != "\n"
  }

  /** The guard drops the newline only for a two-character message that starts with one. */
  lemma NeedsSeparatorIff(msg: string)
    ensures !NeedsSeparator(msg) <==> |msg| == 2 && msg[0] == '\n'
  {
    if |msg| == 2 && msg[0] == '\n' {
      assert DropLast(msg) == [msg[0]];
    }
  }

  /**
   * One guarded append of logger.py:118-124: a newline goes onto `msg` when the guard
   * holds, then the block.
   */
  function AppendBlock(msg: string, block: string): string
  {
    (if NeedsSeparator(msg) then msg + "\n" else msg) + block
  }

  /** `if block: msg = <separator> + block`, keeping `msg` as a prefix. */
  function AppendIfPresent(msg: string, block: Option<string>): (r: string)
    ensures StartsWith(r, msg)
  {
    if block.Some? then AppendBlockPlacement(msg, block.value); AppendBlock(msg, block.value) else msg
  }

  /**
   * Appending keeps the message as a prefix and puts the block at the very end; in between
   * there is nothing, or a single newline exactly when the guard asks for one.
   */
  lemma AppendBlockPlacement(msg: string, block: string)
    ensures var m := AppendBlock(msg, block);
            StartsWith(m, msg) && OccursAt(m, block, |m| - |block|) &&
            (|m| - |block| == |msg| || |m| - |block| == |msg| + 1) &&
            (|m| - |block| == |msg| + 1 <==> NeedsSeparator(msg)) &&
            (NeedsSeparator(msg) ==> m[|msg|] == '\n')
  {
    var m := AppendBlock(msg, block);
    assert m[..|msg|] == msg;
    assert m[|m| - |block|..] == block;
  }

  /** The base message, then the request block, then the response block, each behind the guard. */
  function Assemble(base: string, requestBlock: Option<string>, responseBlock: Option<string>): (r: string)
    ensures StartsWith(r, base)
  {
    var msg := AppendIfPresent(base, requestBlock);
    var out := AppendIfPresent(msg, responseBlock);
    StartsWithTransitive(out, msg, base);
    out
  }

  /** `format(record)`, given the base message produced by `logging.Formatter.format`. */
  function Format(p: Parsers, rec: LogRecord, base: string): (r: Result<string, FormatError>)
    ensures r.Ok? ==> StartsWith(r.value, base)
  {
    match RequestBlock(p, rec)
    case Err(e) => Err(e)
    case Ok(requestBlock) => Ok(Assemble(base, requestBlock, ResponseBlock(p, rec)))
  }

  /** `format` raises exactly when a request is resolved and formatting it raises. */
  lemma FormatFailsIff(p: Parsers, rec: LogRecord, base: string)
    ensures Format(p, rec, base).Err? <==>
      ResolvedRequest(rec).Some? && FormatRequest(p, ResolvedRequest(rec).value).Err?
  {
  }

  /**
   * Both blocks present: base, request block, response block. Each block follows what
   * precedes it directly, or after one newline exactly when the guard asks for it.
   */
  lemma {:induction false} AssembleInOrder(base: string, requestBlock: string, responseBlock: string)
    ensures var m := Assemble(base, Some(requestBlock), Some(responseBlock));
            var msg := AppendBlock(base, requestBlock);
            exists i, j :: (i == |base| || i == |base| + 1) && OccursAt(m, requestBlock, i) &&
                           (i == |base| + 1 <==> NeedsSeparator(base)) &&
                           (i == |base| + 1 ==> m[|base|] == '\n') &&
                           i + |requestBlock| == |msg| &&
                           (j == |msg| || j == |msg| + 1) && OccursAt(m, responseBlock, j) &&
                           (j == |msg| + 1 <==> NeedsSeparator(msg)) &&
                           (j == |msg| + 1 ==> m[|msg|] == '\n') &&
                           j + |responseBlock| == |m|
  {
    var msg := AppendBlock(base, requestBlock);
    var m := AppendBlock(msg, responseBlock);
    assert Assemble(base, Some(requestBlock), Some(responseBlock)) == m;
    AppendBlockPlacement(base, requestBlock);
    AppendBlockPlacement(msg, responseBlock);
    var i := |msg| - |requestBlock|;
    assert m[..|msg|] == msg;
    assert m[i..i + |requestBlock|] == msg[i..i + |requestBlock|];
    assert OccursAt(m, requestBlock, i);
    assert OccursAt(m, responseBlock, |m| - |responseBlock|);
    if NeedsSeparator(base) {
      assert m[|base|] == msg[|base|];
    }
  }

  /**
   * With both attached, the output is the base message, the request block, then the
   * response block, each block preceded by at most one inserted newline.
   */
  lemma FormatBlocksInOrder(p: Parsers, rec: LogRecord, base: string, requestBlock: string, responseBlock: string)
    requires RequestBlock(p, rec) == Ok(Some(requestBlock))
    requires ResponseBlock(p, rec) == Some(responseBlock)
    ensures Format(p, rec, base) == Ok(Assemble(base, Some(requestBlock), Some(responseBlock)))
    ensures var m := Format(p, rec, base).value;
            var msg := AppendBlock(base, requestBlock);
            exists i, j :: (i == |base| || i == |base| + 1) && OccursAt(m, requestBlock, i) &&
                           (i == |base| + 1 <==> NeedsSeparator(base)) &&
                           (i == |base| + 1 ==> m[|base|] == '\n') &&
                           i + |requestBlock| == |msg| &&
                           (j == |msg| || j == |msg| + 1) && OccursAt(m, responseBlock, j) &&
                           (j == |msg| + 1 <==> NeedsSeparator(msg)) &&
                           (j == |msg| + 1 ==> m[|msg|] == '\n') &&
                           j + |responseBlock| == |m|
  {
    AssembleInOrder(base, requestBlock, responseBlock);
  }

  /** With nothing or one block attached, the message is the base with that block appended behind the guard. */
  lemma AssembleCases(base: string, block: string)
    ensures Assemble(base, None, None) == base
    ensures Assemble(base, Some(block), None) == AppendBlock(base, block)
    ensures Assemble(base, None, Some(block)) == AppendBlock(base, block)
  {
  }

  /**
   * Whenever formatting the request does not raise, `format` appends exactly the blocks
   * of the attached request and response, in that order.
   */
  lemma FormatAddsAttachedBlocks(p: Parsers, rec: LogRecord, base: string, requestBlock: Option<string>)
    requires RequestBlock(p, rec) == Ok(requestBlock)
    ensures Format(p, rec, base) == Ok(Assemble(base, requestBlock, ResponseBlock(p, rec)))
    ensures requestBlock.Some? <==> ResolvedRequest(rec).Some?
    ensures ResponseBlock(p, rec).Some? <==> ResolvedResponse(rec).Some?
  {
  }

  /**
   * A record carrying both a request and a response: the rendered request, then the
   * rendered response, each appended behind the guard.
   */
  lemma FormatRequestThenResponse(p: Parsers, req: Request, resp: Response, base: string, block: string)
    requires FormatRequest(p, req) == Ok(block)
    ensures Format(p, LogRecord(Present(Some(req)), Present(Some(resp))), base) ==
            Ok(AppendBlock(AppendBlock(base, block), FormatResponse(p, resp)))
  {
  }

  /** A record with neither a request nor a response attribute is formatted as the base message. */
  lemma FormatNothingAttached(p: Parsers, base: string)
    ensures Format(p, LogRecord(Absent, Absent), base) == Ok(base)
  {
  }

  /**
   * A request block ends in a newline, and the guard adds another before the response
   * block: with both attached, an empty line separates the two blocks.
   */
  lemma FormatBlankLineBeforeResponse(p: Parsers, rec: LogRecord, base: string, requestBlock: string, responseBlock: string)
    requires RequestBlock(p, rec) == Ok(Some(requestBlock))
    requires ResponseBlock(p, rec) == Some(responseBlock)
    requires !(|base| == 2 && base[0] == '\n')
    ensures Format(p, rec, base) == Ok(base + "\n" + requestBlock + "\n" + responseBlock)
    ensures requestBlock[|requestBlock| - 1] == '\n'
  {
    NeedsSeparatorIff(base);
    var msg := base + "\n" + requestBlock;
    assert AppendBlock(base, requestBlock) == msg;
    assert DropLast(msg) != "\n" by {
      assert |msg| >= 3;
    }
  }

  // ---------------------------------------------------------------------------
  // The separator guard as evidently intended: a newline unless msg already ends in one.

  function AppendOnNewLine(msg: string, block: string): string
  {
    (if |msg| > 0 && msg[|msg| - 1] == '\n' then msg else msg + "\n") + block
  }

  /** A block that begins a line of `m` at index `i`. */
  predicate BeginsLineAt(m: string, block: string, i: int)
  {
    OccursAt(m, block, i) && 0 < i && m[i - 1] == '\n'
  }

  lemma AppendOnNewLinePlacement(msg: string, block: string)
    ensures var m := AppendOnNewLine(msg, block);
            StartsWith(m, msg) && BeginsLineAt(m, block, |m| - |block|)
  {
    var m := AppendOnNewLine(msg, block);
    assert m[..|msg|] == msg;
    assert m[|m| - |block|..] == block;
  }

  function AppendOnNewLineIfPresent(msg: string, block: Option<string>): (r: string)
    ensures StartsWith(r, msg)
  {
    if block.Some? then AppendOnNewLinePlacement(msg, block.value); AppendOnNewLine(msg, block.value) else msg
  }

  /** `Assemble` with the guard `msg[-1:] != "\n"`. */
  function AssembleIntended(base: string, requestBlock: Option<string>, responseBlock: Option<string>): (r: string)
    ensures StartsWith(r, base)
  {
    var msg := AppendOnNewLineIfPresent(base, requestBlock);
    var out := AppendOnNewLineIfPresent(msg, responseBlock);
    StartsWithTransitive(out, msg, base);
    out
  }

  /** `format(record)` with the guard `msg[-1:] != "\n"`. */
  function FormatIntended(p: Parsers, rec: LogRecord, base: string): (r: Result<string, FormatError>)
    ensures r.Ok? ==> StartsWith(r.value, base)
  {
    match RequestBlock(p, rec)
    case Err(e) => Err(e)
    case Ok(requestBlock) => Ok(AssembleIntended(base, requestBlock, ResponseBlock(p, rec)))
  }

  /** With the intended guard every appended block begins a line of its own. */
  lemma {:induction false} AssembleIntendedBeginsLines(base: string, requestBlock: Option<string>, responseBlock: Option<string>)
    ensures var m := AssembleIntended(base, requestBlock, responseBlock);
            (requestBlock.Some? ==> exists i :: BeginsLineAt(m, requestBlock.value, i)) &&
            (responseBlock.Some? ==> exists j :: BeginsLineAt(m, responseBlock.value, j))
  {
    var msg := AppendOnNewLineIfPresent(base, requestBlock);
    var m := AppendOnNewLineIfPresent(msg, responseBlock);
    assert AssembleIntended(base, requestBlock, responseBlock) == m;
    if requestBlock.Some? {
      var b := requestBlock.value;
      AppendOnNewLinePlacement(base, b);
      var i := |msg| - |b|;
      if responseBlock.Some? {
        AppendOnNewLinePlacement(msg, responseBlock.value);
        assert m[..|msg|] == msg;
        assert m[i..i + |b|] == msg[i..i + |b|];
        assert m[i - 1] == msg[i - 1];
      }
      assert BeginsLineAt(m, b, i);
    }
    if responseBlock.Some? {
      AppendOnNewLinePlacement(msg, responseBlock.value);
      assert BeginsLineAt(m, responseBlock.value, |m| - |responseBlock.value|);
    }
  }

  /** With the intended guard every block of a formatted record begins a line of its own. */
  lemma FormatIntendedBlocksBeginLines(p: Parsers, rec: LogRecord, base: string, requestBlock: Option<string>)
    requires RequestBlock(p, rec) == Ok(requestBlock)
    ensures FormatIntended(p, rec, base).Ok?
    ensures var m := FormatIntended(p, rec, base).value;
            (requestBlock.Some? ==> exists i :: BeginsLineAt(m, requestBlock.value, i)) &&
            (ResponseBlock(p, rec).Some? ==> exists j :: BeginsLineAt(m, ResponseBlock(p, rec).value, j))
  {
    AssembleIntendedBeginsLines(base, requestBlock, ResponseBlock(p, rec));
  }

  /** With the intended guard the response block starts on the line right after the request block. */
  lemma FormatIntendedResponseFollowsRequest(p: Parsers, rec: LogRecord, base: string, requestBlock: string, responseBlock: string)
    requires RequestBlock(p, rec) == Ok(Some(requestBlock))
    requires ResponseBlock(p, rec) == Some(responseBlock)
    requires |base| > 0 && base[|base| - 1] != '\n'
    ensures FormatIntended(p, rec, base) == Ok(base + "\n" + requestBlock + responseBlock)
  {
    var msg := base + "\n" + requestBlock;
    assert AppendOnNewLine(base, requestBlock) == msg;
    assert msg[|msg| - 1] == requestBlock[|requestBlock| - 1];
  }

  /** A request with no headers, no content type and no body. */
  const BareGet: Request := Request("GET", "/", [], NoBody)

  /** The record that carries only `BareGet`. */
  const BareGetRecord: LogRecord := LogRecord(Present(Some(BareGet)), Absent)

  /** The block `BareGet` renders to: status line, empty header list, `<unknown>` body. */
  const BareGetBlock: string := "GET / HTTP/1.1" + "\n" + "\n" + "<unknown>\n"

  lemma BareGetBlocks(p: Parsers)
    ensures RequestBlock(p, BareGetRecord) == Ok(Some(BareGetBlock))
    ensures ResponseBlock(p, BareGetRecord) == None
  {
    var status := RequestStatusLine(BareGet);
    assert status == "GET / HTTP/1.1";
    assert KeptHeaders([]) == [];
    assert HeaderLines(status, []) == [status];
    assert FormatHeaders(status, []) == status + "\n";
    assert ContentType([]) == None;
    assert FormatBody(p, NoBody, None) == Text("<unknown>");
    assert "<unknown>" + "\n" == "<unknown>\n";
    JoinPair("\n", status + "\n", "<unknown>\n");
    assert FormatRequest(p, BareGet) == Ok(status + "\n" + "\n" + "<unknown>\n");
  }

  /**
   * As written, a two-character base message starting with a newline gets no
   * separator: the request status line is glued to the message text, where the
   * intended guard starts it on a new line.
   */
  lemma FormatGluesAfterShortMessage(p: Parsers)
    ensures Format(p, BareGetRecord, "\nA") == Ok("\nA" + BareGetBlock)
    ensures FormatIntended(p, BareGetRecord, "\nA") == Ok("\nA" + "\n" + BareGetBlock)
  {
    BareGetBlocks(p);
    assert DropLast("\nA") == "\n";
    assert Assemble("\nA", Some(BareGetBlock), None) == "\nA" + BareGetBlock;
    assert AssembleIntended("\nA", Some(BareGetBlock), None) == "\nA" + "\n" + BareGetBlock;
  }
}
