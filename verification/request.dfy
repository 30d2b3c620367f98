/**
 * Request framing in `handle_client`: the request line is split on
 * whitespace into method, path and protocol, then `name: value` header lines
 * are read into a dictionary until a blank line or the end of the stream.
 * A request line without exactly three tokens, or a header line without a
 * colon or with bytes that are not UTF-8, ends the connection with no response.
 */
module Request {
  import opened Base
  import opened Text
  import opened Utf8
  import opened Stream

  type Headers = map<string, string>

  datatype RequestLine = RequestLine(verb: string, path: string, proto: string)

  datatype Request = Request(verb: string, path: string, proto: string, headers: Headers)

  /** `method, path, proto = request_line.decode().split()`. */
  function ParseRequestLine(line: Bytes): (r: Option<RequestLine>)
    ensures r.Some? ==> Decode(line).Some? && Words(Decode(line).value) == [r.value.verb, r.value.path, r.value.proto]
    ensures Decode(line).Some? && |Words(Decode(line).value)| != 3 ==> r.None?
  {
    match Decode(line)
    case None => None
    case Some(text) =>
      var parts := Words(text);
      if |parts| == 3 then Some(RequestLine(parts[0], parts[1], parts[2])) else None
  }

  /** `key, val = text.split(":", 1)`, both sides stripped. */
  function HeaderFields(text: string): (r: Option<(string, string)>)
    ensures r.Some? <==> Contains(text, ":")
  {
    match Find(text, ":")
    case None => None
    case Some(i) => Some((Strip(text[..i]), Strip(text[i + 1..])))
  }

  /** One header line: decoded, then split at its first colon. */
  function ParseHeaderLine(line: Bytes): (r: Option<(string, string)>)
    ensures r.Some? ==> Decode(line).Some? && Contains(Decode(line).value, ":")
  {
    match Decode(line)
    case None => None
    case Some(text) => HeaderFields(text)
  }

  /** A line that ends the header block: the end of the stream or an empty CRLF line. */
  predicate EndsBlock(line: Bytes) {
    line == [] || line == CRLF
  }

  /** The header lines that follow `pos`, up to the line that ends the block. */
  function BlockLines(input: Bytes, pos: nat): (lines: seq<Bytes>)
    requires pos <= |input|
    ensures forall k :: 0 <= k < |lines| ==> !EndsBlock(lines[k])
    decreases |input| - pos
  {
    var line := LineAt(input, pos);
    if EndsBlock(line) then [] else [line] + BlockLines(input, LineEnd(input, pos))
  }

  /** Where the body starts: just past the line that ends the header block. */
  function BlockEnd(input: Bytes, pos: nat): (e: nat)
    requires pos <= |input|
    ensures pos <= e <= |input|
    decreases |input| - pos
  {
    var line := LineAt(input, pos);
    if EndsBlock(line) then LineEnd(input, pos) else BlockEnd(input, LineEnd(input, pos))
  }

  /** Every line of the block parsed, or None at the first one that does not parse. */
  function ParseHeaderLines(lines: seq<Bytes>): Option<seq<(string, string)>> {
    MapAll(lines, ParseHeaderLine)
  }

  /** The block parses exactly when each of its lines does, and then into the pairs of its lines, in order. */
  lemma ParseHeaderLinesMeaning(lines: seq<Bytes>)
    ensures var r := ParseHeaderLines(lines);
      r.Some? ==> |r.value| == |lines| && forall j :: 0 <= j < |lines| ==> ParseHeaderLine(lines[j]) == Some(r.value[j])
    ensures ParseHeaderLines(lines).None? ==> exists j :: 0 <= j < |lines| && ParseHeaderLine(lines[j]).None?
  {
    MapAllMeaning(lines, ParseHeaderLine);
  }

  /** `headers[key] = val` for each pair in turn. */
  function Enter(acc: Headers, pairs: seq<(string, string)>): Headers
    decreases |pairs|
  {
    if pairs == [] then acc else Enter(acc[pairs[0].0 := pairs[0].1], pairs[1..])
  }

  /** The dictionary the header lines build on top of `acc`, or None when one of them does not parse. */
  function AddHeaders(acc: Headers, lines: seq<Bytes>): Option<Headers> {
    match ParseHeaderLines(lines)
    case None => None
    case Some(pairs) => Some(Enter(acc, pairs))
  }

  /** The whole request at the start of a connection, or None where the server answers nothing. */
  function ParseRequest(input: Bytes): (r: Option<Request>)
    ensures r.Some? ==> Decode(LineAt(input, 0)).Some? && Words(Decode(LineAt(input, 0)).value) == [r.value.verb, r.value.path, r.value.proto]
    ensures r.Some? ==> AddHeaders(map[], BlockLines(input, LineEnd(input, 0))) == Some(r.value.headers)
  {
    var first := LineAt(input, 0);
    if first == [] then None
    else
      match ParseRequestLine(first)
      case None => None
      case Some(rl) =>
        match AddHeaders(map[], BlockLines(input, LineEnd(input, 0)))
        case None => None
        case Some(h) => Some(Request(rl.verb, rl.path, rl.proto, h))
  }

  lemma BlockLinesStep(input: Bytes, pos: nat)
    requires pos <= |input| && !EndsBlock(LineAt(input, pos))
    ensures BlockLines(input, pos) == [LineAt(input, pos)] + BlockLines(input, LineEnd(input, pos))
  {
  }

  /** The header loop of `handle_client`: the dictionary it builds, read from the connection. */
  method ReadHeaders(conn: Connection) returns (headers: Option<Headers>)
    requires conn.Valid()
    modifies conn`pos
    ensures conn.Valid()
    ensures headers == AddHeaders(map[], BlockLines(conn.input, old(conn.pos)))
    ensures headers.Some? ==> conn.pos == BlockEnd(conn.input, old(conn.pos))
  {
    var h: Headers := map[];
    while true
      invariant conn.Valid()
      invariant AddHeaders(h, BlockLines(conn.input, conn.pos)) == AddHeaders(map[], BlockLines(conn.input, old(conn.pos)))
      invariant BlockEnd(conn.input, conn.pos) == BlockEnd(conn.input, old(conn.pos))
      decreases |conn.input| - conn.pos
    {
      var start := conn.pos;
      var line := conn.ReadLine();
      if line == [] || line == CRLF {
        return Some(h);
      }
      BlockLinesStep(conn.input, start);
      var kv := ParseHeaderLine(line);
      if kv.None? {
        return None;
      }
      AddHeadersStep(h, line, BlockLines(conn.input, conn.pos), kv.value);
      h := h[kv.value.0 := kv.value.1];
    }
  }

  /** A header line that parses is entered before the lines after it. */
  lemma AddHeadersStep(acc: Headers, line: Bytes, lines: seq<Bytes>, kv: (string, string))
    requires ParseHeaderLine(line) == Some(kv)
    ensures AddHeaders(acc, [line] + lines) == AddHeaders(acc[kv.0 := kv.1], lines)
  {
    MapAllCons(line, lines, ParseHeaderLine);
    match ParseHeaderLines(lines)
    case None =>
    case Some(rest) =>
      assert ([kv] + rest)[1..] == rest;
  }

  /** The framing part of `handle_client`: request line, then headers. */
  method ReadRequest(conn: Connection) returns (req: Option<Request>)
    requires conn.Valid() && conn.pos == 0
    modifies conn`pos
    ensures conn.Valid()
    ensures req == ParseRequest(conn.input)
    ensures req.Some? ==> conn.pos == BlockEnd(conn.input, LineEnd(conn.input, 0))
  {
    var first := conn.ReadLine();
    if first == [] {
      return None;
    }
    var rl := ParseRequestLine(first);
    if rl.None? {
      return None;
    }
    var h := ReadHeaders(conn);
    if h.None? {
      return None;
    }
    req := Some(Request(rl.value.verb, rl.value.path, rl.value.proto, h.value));
  }

  // ---- Properties of the framing ----

  /** A request line a client writes as three tokens and a line break frames as those three tokens. */
  lemma RequestLineReadsBack(verb: string, path: string, proto: string)
    requires |verb| > 0 && NoSpace(verb)
    requires |path| > 0 && NoSpace(path)
    requires |proto| > 0 && NoSpace(proto)
    ensures ParseRequestLine(Encode(verb + " " + path + " " + proto + "\r\n")) == Some(RequestLine(verb, path, proto))
  {
    var ws := [verb, path, proto];
    var text := verb + " " + path + " " + proto + "\r\n";
    assert Unwords(ws) == verb + " " + Unwords([path, proto]);
    assert Unwords([path, proto]) == path + " " + proto;
    assert text == Unwords(ws) + "\r\n";
    WordsUnwords(ws, "\r\n");
    DecodeEncode(text);
  }

  /** A header line splits at its first colon only, and both sides come out trimmed. */
  lemma HeaderFieldsReadBack(key: string, value: string, sp1: string, sp2: string)
    requires ':' !in key && Trimmed(key) && Trimmed(value)
    requires AllSpace(sp1) && AllSpace(sp2)
    ensures HeaderFields(key + ":" + sp1 + value + sp2) == Some((key, value))
  {
    var tail := sp1 + value + sp2;
    var text := key + ":" + sp1 + value + sp2;
    assert text == key + ([':'] + tail);
    NoElemFind(key, [':'] + tail, ':');
    var i := |key|;
    HeaderFieldsAt(text, i);
    AroundElem(key, ':', tail);
    StripTrimmedId(key);
    StripSurrounded(sp1, value, sp2);
  }

  lemma HeaderFieldsAt(text: string, i: nat)
    requires Find(text, ":") == Some(i)
    ensures HeaderFields(text) == Some((Strip(text[..i]), Strip(text[i + 1..])))
  {
  }

  lemma HeaderLineReadsBack(key: string, value: string, sp1: string, sp2: string)
    requires ':' !in key && Trimmed(key) && Trimmed(value)
    requires AllSpace(sp1) && AllSpace(sp2)
    ensures ParseHeaderLine(Encode(key + ":" + sp1 + value + sp2)) == Some((key, value))
  {
    DecodeEncode(key + ":" + sp1 + value + sp2);
    HeaderFieldsReadBack(key, value, sp1, sp2);
  }

  /** The names among the pairs. */
  function Names(pairs: seq<(string, string)>): (r: set<string>)
    ensures forall j :: 0 <= j < |pairs| ==> pairs[j].0 in r
    ensures forall k :: k in r ==> exists j :: 0 <= j < |pairs| && pairs[j].0 == k
    decreases |pairs|
  {
    if pairs == [] then {}
    else
      var rest := Names(pairs[1..]);
      assert forall j :: 1 <= j < |pairs| ==> pairs[j] == pairs[1..][j - 1];
      {pairs[0].0} + rest
  }

  /** The keys of the dictionary: those already there and those named by the pairs, nothing else. */
  lemma {:induction false} EnterKeys(acc: Headers, pairs: seq<(string, string)>)
    ensures Enter(acc, pairs).Keys == acc.Keys + Names(pairs)
    decreases |pairs|
  {
    if pairs != [] {
      EnterKeys(acc[pairs[0].0 := pairs[0].1], pairs[1..]);
    }
  }

  /** Pairs whose keys differ from `k` leave the value under `k` alone. */
  lemma {:induction false} EnterKeep(acc: Headers, pairs: seq<(string, string)>, k: string)
    requires k in acc
    requires forall j :: 0 <= j < |pairs| ==> pairs[j].0 != k
    ensures k in Enter(acc, pairs) && Enter(acc, pairs)[k] == acc[k]
    decreases |pairs|
  {
    if pairs != [] {
      assert pairs[0].0 != k;
      assert forall j :: 0 <= j < |pairs[1..]| ==> pairs[1..][j] == pairs[j + 1];
      EnterKeep(acc[pairs[0].0 := pairs[0].1], pairs[1..], k);
    }
  }

  lemma {:induction false} EnterAppend(acc: Headers, pre: seq<(string, string)>, post: seq<(string, string)>)
    ensures Enter(acc, pre + post) == Enter(Enter(acc, pre), post)
    decreases |pre|
  {
    if pre == [] {
      assert pre + post == post;
    } else {
      assert (pre + post)[0] == pre[0];
      assert (pre + post)[1..] == pre[1..] + post;
      EnterAppend(acc[pre[0].0 := pre[0].1], pre[1..], post);
    }
  }

  /** A later header with the same name overwrites an earlier one: the last one wins. */
  lemma LastWins(acc: Headers, pre: seq<(string, string)>, k: string, v: string, post: seq<(string, string)>)
    requires forall j :: 0 <= j < |post| ==> post[j].0 != k
    ensures k in Enter(acc, pre + [(k, v)] + post)
    ensures Enter(acc, pre + [(k, v)] + post)[k] == v
  {
    EnterAppend(acc, pre + [(k, v)], post);
    EnterAppend(acc, pre, [(k, v)]);
    var mid := Enter(acc, pre);
    assert Enter(mid, [(k, v)]) == mid[k := v];
    EnterKeep(mid[k := v], post, k);
  }
}
