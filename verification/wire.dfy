/**
 * The response writer: the exact bytes `send_response`, `send_redirect`,
 * `send_auth_challenge` and the header part of `send_file` put on the
 * connection, and a reader of status line and body that recovers what was
 * written.
 */
module Wire {
  import opened Base
  import opened Text
  import opened Utf8
  import opened Decimal

  /** `send_response`: status `code` (always with reason "OK"), a content type, the CORS header, the body. */
  function ResponseText(code: int, mime: string, body: string): string {
    ResponseHead(code, mime) + "\r\n\r\n" + body
  }

  function ResponseHead(code: int, mime: string): string {
    StatusLine(code) + HeaderLines(mime)
  }

  function StatusLine(code: int): string {
    "HTTP/1.1 " + FormatInt(code) + " OK"
  }

  function HeaderLines(mime: string): string {
    HeaderLine("Content-Type", mime) + HeaderLine("Access-Control-Allow-Origin", "*")
  }

  /** One header line, with the line break before it. */
  function HeaderLine(name: string, value: string): string {
    "\r\n" + (name + ": " + value)
  }

  function Response(code: int, mime: string, body: string): Bytes {
    Encode(ResponseText(code, mime, body))
  }

  /** `send_redirect`: a 301 with a `Location` header and no body. */
  function RedirectText(location: string): string {
    RedirectHead(location) + "\r\n\r\n"
  }

  function RedirectHead(location: string): string {
    "HTTP/1.1 301" + " Moved Permanently" + "\r\nLocation: " + location
  }

  function Redirect(location: string): Bytes {
    Encode(RedirectText(location))
  }

  /** `send_auth_challenge`: a 401 with a Basic challenge and no body. */
  const Realm: string := "ESP32"

  function ChallengeText(realm: string): string {
    "HTTP/1.1 401 Unauthorized\r\nWWW-Authenticate: Basic realm=\"" + realm + "\"\r\n\r\n"
  }

  function Challenge(): Bytes {
    Encode(ChallengeText(Realm))
  }

  /** The head `send_file` writes before the file's bytes: no CORS header, a Content-Length. */
  function FileHeadText(mime: string, size: int): string {
    "HTTP/1.1 200 OK\r\nContent-Type: " + mime + "\r\nContent-Length: " + FormatInt(size) + "\r\n\r\n"
  }

  function FileHead(mime: string, size: int): Bytes {
    Encode(FileHeadText(mime, size))
  }

  // ---- Reading a response back ----

  /** The status code of a response: the number between `HTTP/1.1 ` and the next space. */
  function StatusOf(msg: string): Option<int> {
    if StartsWith(msg, "HTTP/1.1 ") then ParseInt(Split(msg[9..], " ")[0]) else None
  }

  /** The body of a response: everything after the first blank line. */
  function BodyOf(msg: string): Option<string> {
    match Find(msg, "\r\n\r\n")
    case None => None
    case Some(i) => Some(msg[i + 4..])
  }

  /** Every carriage return is followed by a line feed and then by something other than a carriage return. */
  predicate CrSafe(x: string) {
    forall j :: 0 <= j < |x| && x[j] == '\r' ==> j + 2 < |x| && x[j + 1] == '\n' && x[j + 2] != '\r'
  }

  predicate NoCrLf(x: string) {
    forall j :: 0 <= j < |x| ==> x[j] != '\r' && x[j] != '\n'
  }

  lemma CrSafeAppend(a: string, b: string)
    requires CrSafe(a) && CrSafe(b)
    ensures CrSafe(a + b)
  {
    forall j | 0 <= j < |a + b| && (a + b)[j] == '\r'
      ensures j + 2 < |a + b| && (a + b)[j + 1] == '\n' && (a + b)[j + 2] != '\r'
    {
      if j < |a| {
        assert a[j] == '\r';
      } else {
        assert b[j - |a|] == '\r';
      }
    }
  }

  lemma NoCrLfSafe(x: string)
    requires NoCrLf(x)
    ensures CrSafe(x)
  {
  }

  /** A line break followed by a non-empty line. */
  lemma LineBreakSafe(y: string)
    requires |y| > 0 && NoCrLf(y)
    ensures CrSafe("\r\n" + y)
  {
    var x := "\r\n" + y;
    forall j | 2 <= j < |x| ensures x[j] == y[j - 2] {
    }
  }

  /** A head in which no blank line can start puts the first blank line right after itself. */
  lemma FindBlankLine(head: string, body: string)
    requires CrSafe(head)
    ensures Find(head + "\r\n\r\n" + body, "\r\n\r\n") == Some(|head|)
  {
    var x := head + "\r\n\r\n" + body;
    assert x[|head|..|head| + 4] == "\r\n\r\n";
    assert OccursAt(x, "\r\n\r\n", |head|);
    forall j | 0 <= j < |head| ensures !OccursAt(x, "\r\n\r\n", j) {
      if head[j] == '\r' {
        assert x[j + 2] == head[j + 2];
      } else {
        assert x[j] == head[j];
      }
    }
  }

  lemma FormatIntNoCrLf(n: int)
    ensures NoCrLf(FormatInt(n)) && ' ' !in FormatInt(n)
  {
    var s := FormatInt(n);
    if n < 0 {
      var f := FormatNat(-n);
      assert s == "-" + f;
      forall j | 1 <= j < |s| ensures s[j] == f[j - 1] {
      }
    }
  }

  lemma NoCrLfAppend(a: string, b: string)
    requires NoCrLf(a) && NoCrLf(b)
    ensures NoCrLf(a + b)
  {
    forall j | 0 <= j < |a + b| ensures (a + b)[j] != '\r' && (a + b)[j] != '\n' {
      if j < |a| {
        assert (a + b)[j] == a[j];
      } else {
        assert (a + b)[j] == b[j - |a|];
      }
    }
  }

  lemma StatusLineNoCrLf(code: int)
    ensures NoCrLf(StatusLine(code))
  {
    FormatIntNoCrLf(code);
    NoCrLfAppend("HTTP/1.1 ", FormatInt(code));
    NoCrLfAppend("HTTP/1.1 " + FormatInt(code), " OK");
  }

  lemma HeaderLineSafe(name: string, value: string)
    requires |name| > 0 && NoCrLf(name) && NoCrLf(value)
    ensures CrSafe(HeaderLine(name, value))
  {
    NoCrLfAppend(name, ": ");
    NoCrLfAppend(name + ": ", value);
    LineBreakSafe(name + ": " + value);
  }

  lemma HeaderLinesSafe(mime: string)
    requires NoCrLf(mime)
    ensures CrSafe(HeaderLines(mime))
  {
    HeaderLineSafe("Content-Type", mime);
    HeaderLineSafe("Access-Control-Allow-Origin", "*");
    CrSafeAppend(HeaderLine("Content-Type", mime), HeaderLine("Access-Control-Allow-Origin", "*"));
  }

  lemma ResponseHeadSafe(code: int, mime: string)
    requires NoCrLf(mime)
    ensures CrSafe(ResponseHead(code, mime))
  {
    StatusLineNoCrLf(code);
    NoCrLfSafe(StatusLine(code));
    HeaderLinesSafe(mime);
    CrSafeAppend(StatusLine(code), HeaderLines(mime));
  }

  /** The status line starts with the version and the code, then a space. */
  lemma StatusOfHead(digits: string, code: int, rest: string)
    requires digits == FormatInt(code) && (rest == [] || rest[0] == ' ')
    ensures StatusOf("HTTP/1.1 " + digits + rest) == Some(code)
  {
    var msg := "HTTP/1.1 " + digits + rest;
    assert msg[..9] == "HTTP/1.1 ";
    assert msg[9..] == digits + rest;
    FormatIntNoCrLf(code);
    FirstPiece(digits, rest, ' ');
    ParseFormat(code);
  }

  lemma ResponseBody(code: int, mime: string, body: string)
    requires NoCrLf(mime)
    ensures BodyOf(ResponseText(code, mime, body)) == Some(body)
  {
    var head := ResponseHead(code, mime);
    ResponseHeadSafe(code, mime);
    FindBlankLine(head, body);
    assert ResponseText(code, mime, body)[|head| + 4..] == body;
  }

  lemma ResponseStatus(code: int, mime: string, body: string)
    ensures StatusOf(ResponseText(code, mime, body)) == Some(code)
  {
    var rest := " OK" + (HeaderLines(mime) + "\r\n\r\n" + body);
    assert ResponseText(code, mime, body) == "HTTP/1.1 " + FormatInt(code) + rest;
    StatusOfHead(FormatInt(code), code, rest);
  }

  /** A response reads back as the status code and the body it was written with. */
  lemma ResponseReadsBack(code: int, mime: string, body: string)
    requires NoCrLf(mime)
    ensures StatusOf(ResponseText(code, mime, body)) == Some(code)
    ensures BodyOf(ResponseText(code, mime, body)) == Some(body)
  {
    ResponseStatus(code, mime, body);
    ResponseBody(code, mime, body);
  }

  /** A redirect reads back as status 301 with an empty body. */
  lemma RedirectReadsBack(location: string)
    requires NoCrLf(location)
    ensures StatusOf(RedirectText(location)) == Some(301)
    ensures BodyOf(RedirectText(location)) == Some([])
  {
    RedirectStatus(location);
    RedirectBody(location);
  }

  lemma RedirectStatus(location: string)
    ensures StatusOf(RedirectText(location)) == Some(301)
  {
    Format301();
    var rest := " Moved Permanently" + "\r\nLocation: " + location + "\r\n\r\n";
    assert RedirectText(location) == "HTTP/1.1 " + FormatInt(301) + rest;
    StatusOfHead(FormatInt(301), 301, rest);
  }

  lemma Format301()
    ensures FormatInt(301) == "301"
  {
    assert FormatNat(3) == "3";
    assert FormatNat(30) == "30";
  }

  lemma RedirectBody(location: string)
    requires NoCrLf(location)
    ensures BodyOf(RedirectText(location)) == Some([])
  {
    var head := RedirectHead(location);
    var a := "HTTP/1.1 301" + " Moved Permanently";
    assert NoCrLf(a);
    NoCrLfSafe(a);
    LineBreakSafe("Location: ");
    CrSafeAppend(a, "\r\nLocation: ");
    NoCrLfSafe(location);
    CrSafeAppend(a + "\r\nLocation: ", location);
    FindBlankLine(head, []);
    AppendEmpty(head + "\r\n\r\n");
  }
}
