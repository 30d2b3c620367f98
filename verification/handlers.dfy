/**
 * The handlers `handle_client` dispatches to once a route is chosen, and
 * `send_file`: for each, a function giving the answer and the tree it leaves,
 * and a method that does the work on the connection and the filesystem.
 */
module Handlers {
  import opened Base
  import opened Text
  import opened Utf8
  import opened Decimal
  import opened Stream
  import opened Wire
  import opened Request
  import opened Foreign
  import opened Fs
  import opened Router
  import opened Upload

  const JsonType: string := "application/json"
  const TextType: string := "text/plain"

  /** What one `send_response(writer, code, mime, body)` call says. */
  datatype Answer = Answer(code: int, mime: string, body: string)

  function Send(a: Answer): Bytes {
    Response(a.code, a.mime, a.body)
  }

  const NotFoundAnswer: Answer := Answer(404, TextType, "Not Found")

  /** What `send_file` answers when the file cannot be found or opened. */
  const FileMissing: Answer := Answer(404, TextType, "File Not Found")

  // ---- send_file ----

  /** The name `send_file` opens: one leading `/` removed. */
  function FileName(filename: string): string {
    if StartsWith(filename, "/") then filename[1..] else filename
  }

  /**
   * `send_file`: the head with the size `stat` reports, then the bytes read
   * from the file; a 404 where `stat` raises, appended after the head where
   * only the `open` raises.
   */
  function FileReply(nodes: map<Path, Node>, filename: string, mime: string): Bytes {
    var p := Resolve(FileName(filename));
    match StatOf(nodes, p)
    case None => Send(FileMissing)
    case Some(st) =>
      match ReadResult(nodes, p)
      case Some(data) => FileHead(mime, st.size) + data
      case None => FileHead(mime, st.size) + Send(FileMissing)
  }

  /** The chunk loop of `send_file`: 1024 bytes at a time until the data is used up. */
  method WriteChunks(conn: Connection, data: Bytes)
    modifies conn`output
    ensures conn.output == old(conn.output) + data
  {
    var i := 0;
    while i < |data|
      invariant 0 <= i <= |data|
      invariant conn.output == old(conn.output) + data[..i]
    {
      var j := if i + 1024 < |data| then i + 1024 else |data|;
      conn.Write(data[i..j]);
      assert data[..j] == data[..i] + data[i..j];
      i := j;
    }
    assert data[..i] == data;
  }

  /** `send_file(writer, filename, mime)`. */
  method SendFile(conn: Connection, fs: FileSystem, filename: string, mime: string)
    modifies conn`output
    ensures conn.output == old(conn.output) + FileReply(fs.nodes, filename, mime)
  {
    ghost var before := conn.output;
    var name := FileName(filename);
    var st := fs.Stat(name);
    if st.None? {
      conn.Write(Send(FileMissing));
      return;
    }
    var head := FileHead(mime, st.value.size);
    conn.Write(head);
    var data := fs.ReadAll(name);
    var rest := if data.None? then Send(FileMissing) else data.value;
    if data.None? {
      conn.Write(rest);
    } else {
      WriteChunks(conn, rest);
    }
    AppendAssoc(before, head, rest);
  }

  /** A file is sent whole, and the `Content-Length` announced is the number of bytes that follow the head. */
  lemma FileReplyLength(nodes: map<Path, Node>, filename: string, mime: string)
    requires IsFileIn(nodes, Resolve(FileName(filename)))
    ensures FileReply(nodes, filename, mime) == FileHead(mime, |nodes[Resolve(FileName(filename))].data|) + nodes[Resolve(FileName(filename))].data
  {
  }

  /** A directory reached as a static file gets a 200 head announcing nothing and then a whole 404 response. */
  lemma FileReplyOfDir(nodes: map<Path, Node>, filename: string, mime: string)
    requires IsDirIn(nodes, Resolve(FileName(filename)))
    ensures FileReply(nodes, filename, mime) == FileHead(mime, 0) + Send(FileMissing)
  {
  }

  // ---- /api/files ----

  /** `get_file_info(path)`: None where `stat` raises; the type from the file-type bits of the mode. */
  function FileInfoOf(nodes: map<Path, Node>, name: string): (r: Option<FileInfo>)
    ensures r.Some? <==> Resolve(name) == [] || Resolve(name) in nodes
    ensures r.Some? ==> r.value.name == name && (r.value.isDir <==> IsDirIn(nodes, Resolve(name)))
    ensures r.Some? && IsFileIn(nodes, Resolve(name)) ==> r.value.size == |nodes[Resolve(name)].data|
    ensures r.Some? && r.value.isDir ==> r.value.size == 0
  {
    match StatOf(nodes, Resolve(name))
    case None => None
    case Some(st) =>
      if IsDirMode(st.mode) then Some(FileInfo(name, true, 0)) else Some(FileInfo(name, false, st.size))
  }

  /** The list the loop over `os.listdir` builds: locked names skipped, names `get_file_info` fails on dropped. */
  function Infos(nodes: map<Path, Node>, names: seq<string>): (r: seq<FileInfo>)
    ensures forall i :: 0 <= i < |r| ==> r[i].name !in LockedFiles && r[i].name in names
    decreases |names|
  {
    if names == [] then []
    else
      var init := names[..|names| - 1];
      var last := names[|names| - 1];
      var front := Infos(nodes, init);
      assert forall i :: 0 <= i < |front| ==> front[i].name in names by {
        forall i | 0 <= i < |front| ensures front[i].name in names {
          var j :| 0 <= j < |init| && init[j] == front[i].name;
          assert names[j] == init[j];
        }
      }
      if last in LockedFiles then front
      else match FileInfoOf(nodes, last)
        case None => front
        case Some(info) => front + [info]
  }

  /** Every name that is not locked and that `stat` finds is in the list, with its type and size. */
  lemma {:induction false} InfosComplete(nodes: map<Path, Node>, names: seq<string>)
    ensures forall j :: 0 <= j < |names| && names[j] !in LockedFiles && FileInfoOf(nodes, names[j]).Some? ==>
      FileInfoOf(nodes, names[j]).value in Infos(nodes, names)
    decreases |names|
  {
    if names != [] {
      var init := names[..|names| - 1];
      InfosComplete(nodes, init);
      forall j | 0 <= j < |names| && names[j] !in LockedFiles && FileInfoOf(nodes, names[j]).Some?
        ensures FileInfoOf(nodes, names[j]).value in Infos(nodes, names)
      {
        if j < |init| {
          assert init[j] == names[j];
        }
      }
    }
  }

  /** A root entry written as its own name resolves to itself. */
  predicate PlainRoot(nodes: map<Path, Node>) {
    forall c :: c in ChildNames(nodes, []) ==> Plain(c)
  }

  /**
   * The file list answers every entry at the root except the locked ones,
   * each with its type and size.
   */
  lemma ListingComplete(nodes: map<Path, Node>, names: seq<string>, j: nat)
    requires IsListing(nodes, [], names) && PlainRoot(nodes)
    requires j < |names| && names[j] !in LockedFiles
    ensures FileInfo(names[j], IsDirIn(nodes, [names[j]]), if IsFileIn(nodes, [names[j]]) then |nodes[[names[j]]].data| else 0) in Infos(nodes, names)
  {
    var c := names[j];
    assert c in Elems(names);
    assert Plain(c);
    ResolveName(c);
    var q :| q in nodes && |q| == 1 && q[..0] == [] && q[0] == c;
    assert q == [c];
    InfosComplete(nodes, names);
  }

  lemma ResolveDot()
    ensures Resolve(UploadDir) == []
  {
    SplitNone(UploadDir, '/');
  }

  /** The `/api/files` route: the list of the root's entries, as `ujson.dumps` writes it. */
  method ListFiles(conn: Connection, fs: FileSystem, dumps: seq<FileInfo> -> string)
    modifies conn`output
    ensures exists names :: (IsListing(fs.nodes, [], names) &&
      conn.output == old(conn.output) + Send(Answer(200, JsonType, dumps(Infos(fs.nodes, names)))))
  {
    ResolveDot();
    var all := fs.ListDir(UploadDir);
    var names := all.value;
    var list: seq<FileInfo> := [];
    var i := 0;
    while i < |names|
      invariant 0 <= i <= |names|
      invariant list == Infos(fs.nodes, names[..i])
    {
      assert names[..i + 1][..i] == names[..i];
      var item := names[i];
      if item !in LockedFiles {
        var info := FileInfoOf(fs.nodes, item);
        if info.Some? {
          list := list + [info.value];
        }
      }
      i := i + 1;
    }
    assert names[..i] == names;
    conn.Write(Send(Answer(200, JsonType, dumps(list))));
  }

  // ---- /api/stats ----

  /** `int(x)` on a float: truncation toward zero. */
  function Trunc(x: real): int {
    if x >= 0.0 then x.Floor else -((-x).Floor)
  }

  /** `get_fs_stats()`: kilobytes total, used and free from `(block size, blocks, free blocks)`; zeros where `statvfs` raises. */
  function FsStats(volume: Option<(nat, nat, nat)>): (int, int, int) {
    match volume
    case None => (0, 0, 0)
    case Some((bs, total, free)) =>
      var t := (total * bs) as real / 1024.0;
      var f := (free * bs) as real / 1024.0;
      (Trunc(t), Trunc(t - f), Trunc(f))
  }

  /** `'{"total":%d,"used":%d,"free":%d}'`. */
  function StatsBody(t: int, u: int, f: int): string {
    "{\"total\":" + FormatInt(t) + ",\"used\":" + FormatInt(u) + ",\"free\":" + FormatInt(f) + "}"
  }

  function StatsAnswer(volume: Option<(nat, nat, nat)>): Answer {
    var (t, u, f) := FsStats(volume);
    Answer(200, JsonType, StatsBody(t, u, f))
  }

  lemma FloorSub(a: real, b: real)
    requires 0.0 <= b <= a
    ensures (a - b).Floor == a.Floor - b.Floor || (a - b).Floor == a.Floor - b.Floor - 1
  {
    var x := a - a.Floor as real;
    var y := b - b.Floor as real;
    assert a - b == (a.Floor - b.Floor) as real + (x - y);
    assert -1.0 < x - y < 1.0;
  }

  /** Used and free add up to the total, or fall one kilobyte short of it when both are cut. */
  lemma StatsAddUp(bs: nat, total: nat, free: nat)
    requires free <= total
    ensures var (t, u, f) := FsStats(Some((bs, total, free)));
      0 <= f <= t && 0 <= u && (u + f == t || u + f == t - 1)
  {
    var t := (total * bs) as real / 1024.0;
    var f := (free * bs) as real / 1024.0;
    assert free * bs <= total * bs by {
      assert total * bs == free * bs + (total - free) * bs;
    }
    FloorSub(t, f);
  }

  /** With a block size that is a whole number of kilobytes nothing is cut: used plus free is exactly the total. */
  lemma StatsExact(bs: nat, total: nat, free: nat)
    requires free <= total && bs % 1024 == 0
    ensures var (t, u, f) := FsStats(Some((bs, total, free))); u + f == t && t == total * (bs / 1024)
  {
    var k := bs / 1024;
    assert bs == 1024 * k;
    assert (total * bs) as real / 1024.0 == (total * k) as real;
    assert (free * bs) as real / 1024.0 == (free * k) as real;
    assert (total * k) as real - (free * k) as real == (total * k - free * k) as real;
    assert total * k - free * k >= 0 by {
      assert total * k - free * k == (total - free) * k;
    }
  }

  // ---- /api/read ----

  /** The `/api/read` route: 403 for a bare locked name, the file's text, or an empty 404 where the read raises. */
  function ReadAnswer(nodes: map<Path, Node>, target: string): (a: Answer)
    ensures a.code == 403 <==> IsProtected(target)
    ensures a.code == 200 <==> !IsProtected(target) && ReadResult(nodes, Resolve(target)).Some? && Decode(ReadResult(nodes, Resolve(target)).value).Some?
    ensures a.code == 200 ==> Encode(a.body) == nodes[Resolve(target)].data
  {
    if IsProtected(target) then Answer(403, TextType, "Access Denied")
    else match ReadResult(nodes, Resolve(target))
      case None => Answer(404, TextType, "")
      case Some(data) =>
        match Decode(data)
        case None => Answer(404, TextType, "")
        case Some(text) =>
          EncodeDecode(data);
          Answer(200, TextType, text)
  }

  // ---- /api/save ----

  /** `int(headers.get('Content-Length', 0))`, read as MicroPython's `int()` reads it (`Decimal.ParseInt`): None where `int` raises. */
  function ContentLength(headers: Headers): Option<int> {
    if "Content-Length" in headers then ParseInt(headers["Content-Length"]) else Some(0)
  }

  /** `data['filename']` and `data['code']`, both looked up before anything else; None where either lookup raises. */
  function SaveFields(data: Option<Json>): (r: Option<(Json, Json)>)
    ensures r.Some? <==> data.Some? && data.value.JObject? && "filename" in data.value.fields && "code" in data.value.fields
  {
    match data
    case Some(JObject(fields)) =>
      if "filename" in fields && "code" in fields then Some((fields["filename"], fields["code"])) else None
    case _ => None
  }

  const SaveFailed: Answer := Answer(500, JsonType, "{\"error\": \"Save failed\"}")
  const ProtectedAnswer: Answer := Answer(403, JsonType, "{\"error\": \"Protected\"}")
  const Saved200: Answer := Answer(200, JsonType, "{\"status\": \"saved\"}")

  /**
   * The save route once the body is read: 403 and no change for a bare locked
   * name; otherwise the file is emptied by `open` and then given the code.
   * A name that is not a string is refused with 500, like any other failure.
   */
  function SaveResult(nodes: map<Path, Node>, body: Bytes, loads: Bytes -> Option<Json>): (r: (Answer, map<Path, Node>))
    ensures r.0 == ProtectedAnswer <==> SaveFields(loads(body)).Some? && SaveFields(loads(body)).value.0.JString? && IsProtected(SaveFields(loads(body)).value.0.text)
    ensures r.0 == ProtectedAnswer ==> r.1 == nodes
    ensures r.0 == Saved200 ==> SaveFields(loads(body)).Some? && SaveFields(loads(body)).value.1.JString?
    ensures SaveFields(loads(body)).None? || !SaveFields(loads(body)).value.0.JString? ==> r == (SaveFailed, nodes)
  {
    match SaveFields(loads(body))
    case None => (SaveFailed, nodes)
    case Some((filename, code)) =>
      match filename
      case JString(fn) =>
        if IsProtected(fn) then (ProtectedAnswer, nodes)
        else
          (match OpenWriteResult(nodes, Resolve(fn))
           case None => (SaveFailed, nodes)
           case Some(n) =>
             (match code
              case JString(text) => (Saved200, n[Resolve(fn) := File(Encode(text))])
              case _ => (SaveFailed, n)))
      case _ => (SaveFailed, nodes)
  }

  /** The save route answers 200, 403 or 500 and nothing else. */
  lemma SaveAnswers(nodes: map<Path, Node>, body: Bytes, loads: Bytes -> Option<Json>)
    ensures var a := SaveResult(nodes, body, loads).0; a == Saved200 || a == ProtectedAnswer || a == SaveFailed
  {
  }

  /** How far `reader.read(n)` gets from `pos`. */
  function ReadEnd(size: nat, pos: nat, n: int): nat {
    if n < 0 || pos + n >= size then size else pos + n
  }

  /** The `/api/save` route: the body read with the announced length, then decoded and written. */
  method HandleSave(conn: Connection, fs: FileSystem, headers: Headers, loads: Bytes -> Option<Json>)
    requires conn.Valid() && fs.Valid()
    modifies conn`pos, conn`output, fs`nodes
    ensures conn.Valid() && fs.Valid()
    ensures ContentLength(headers).None? ==>
      conn.output == old(conn.output) + Send(SaveFailed) && fs.nodes == old(fs.nodes) && conn.pos == old(conn.pos)
    ensures ContentLength(headers).Some? ==>
      conn.pos == ReadEnd(|conn.input|, old(conn.pos), ContentLength(headers).value) &&
      var r := SaveResult(old(fs.nodes), conn.input[old(conn.pos)..conn.pos], loads);
      conn.output == old(conn.output) + Send(r.0) && fs.nodes == r.1
  {
    var length := ContentLength(headers);
    if length.None? {
      conn.Write(Send(SaveFailed));
      return;
    }
    ghost var before := conn.output;
    var content := conn.Read(length.value);
    assert content == conn.input[old(conn.pos)..conn.pos];
    var answer := SaveContent(fs, content, loads);
    conn.Write(Send(answer));
    assert conn.output == before + Send(answer);
  }

  /** The save route once its body is read: the answer, with the file written where the save succeeds. */
  method SaveContent(fs: FileSystem, content: Bytes, loads: Bytes -> Option<Json>) returns (answer: Answer)
    requires fs.Valid()
    modifies fs`nodes
    ensures fs.Valid()
    ensures (answer, fs.nodes) == SaveResult(old(fs.nodes), content, loads)
  {
    var fields := SaveFields(loads(content));
    if fields.None? {
      return SaveFailed;
    }
    var (filename, code) := fields.value;
    if !filename.JString? {
      return SaveFailed;
    }
    if IsProtected(filename.text) {
      return ProtectedAnswer;
    }
    var f := fs.OpenWrite(filename.text);
    if f.None? {
      return SaveFailed;
    }
    if !code.JString? {
      return SaveFailed;
    }
    fs.Write(f.value, Encode(code.text));
    assert [] + Encode(code.text) == Encode(code.text);
    answer := Saved200;
  }

  /** Saving only ever touches the named file: every other entry is left as it was. */
  lemma SaveTouchesOnlyTarget(nodes: map<Path, Node>, body: Bytes, loads: Bytes -> Option<Json>, q: Path)
    requires SaveFields(loads(body)).Some? && SaveFields(loads(body)).value.0.JString?
    requires q != Resolve(SaveFields(loads(body)).value.0.text)
    ensures q in SaveResult(nodes, body, loads).1 <==> q in nodes
    ensures q in nodes ==> SaveResult(nodes, body, loads).1[q] == nodes[q]
  {
  }

  /** What the save route stores, the read route gives back. */
  lemma SaveThenRead(nodes: map<Path, Node>, body: Bytes, loads: Bytes -> Option<Json>, fn: string, code: string)
    requires SaveFields(loads(body)) == Some((JString(fn), JString(code)))
    requires !IsProtected(fn) && OpenWriteResult(nodes, Resolve(fn)).Some?
    ensures SaveResult(nodes, body, loads).0 == Saved200
    ensures ReadAnswer(SaveResult(nodes, body, loads).1, fn) == Answer(200, TextType, code)
  {
    DecodeEncode(code);
  }

  // ---- /api/delete ----

  /** `after` is `before` with some entries gone and nothing else changed. */
  predicate Shrinks(before: map<Path, Node>, after: map<Path, Node>) {
    after.Keys <= before.Keys && forall q :: q in after ==> after[q] == before[q]
  }

  /** `for f in os.listdir(target): os.remove(f"{target}/{f}")`: false at the first removal that raises. */
  function RemoveChildren(nodes: map<Path, Node>, target: string, names: seq<string>): (r: (bool, map<Path, Node>))
    ensures Shrinks(nodes, r.1)
    decreases |names|
  {
    if names == [] then (true, nodes)
    else match RemoveResult(nodes, Resolve(target + "/" + names[0]))
      case None => (false, nodes)
      case Some(n) => RemoveChildren(n, target, names[1..])
  }

  /** The inner `except: os.remove(target)`. */
  function RemoveOrFail(nodes: map<Path, Node>, p: Path): (r: (Answer, map<Path, Node>))
    ensures Shrinks(nodes, r.1)
    ensures r.0 == Deleted200 || r.0 == DeleteFailed
    ensures r.0 == Deleted200 ==> p in nodes && p !in r.1
    ensures r.0 == DeleteFailed ==> r.1 == nodes
  {
    match RemoveResult(nodes, p)
    case None => (DeleteFailed, nodes)
    case Some(n) => (Deleted200, n)
  }

  const DeleteFailed: Answer := Answer(404, JsonType, "{\"error\": \"failed\"}")
  const Deleted200: Answer := Answer(200, JsonType, "{\"status\": \"deleted\"}")

  /**
   * The delete route; `names` is what `os.listdir(target)` returns when the
   * target is a directory. A directory's entries go one by one, then the
   * directory; any failure on the way falls back to `os.remove(target)`.
   */
  function DeleteResult(nodes: map<Path, Node>, target: string, names: seq<string>): (r: (Answer, map<Path, Node>))
    ensures r.0 == ProtectedAnswer || r.0 == Deleted200 || r.0 == DeleteFailed
    ensures r.0 == ProtectedAnswer <==> IsProtected(target)
    ensures IsProtected(target) ==> r.1 == nodes
    ensures Shrinks(nodes, r.1)
    ensures r.0 == Deleted200 ==> Resolve(target) in nodes && Resolve(target) !in r.1
    ensures r.0 == DeleteFailed && !IsDirIn(nodes, Resolve(target)) ==> r.1 == nodes
  {
    if IsProtected(target) then (ProtectedAnswer, nodes)
    else
      var p := Resolve(target);
      match StatOf(nodes, p)
      case None => RemoveOrFail(nodes, p)
      case Some(st) => if IsDirMode(st.mode) then RemoveDir(nodes, target, names) else RemoveOrFail(nodes, p)
  }

  /** A directory's branch: its entries, then the directory itself, falling back to `os.remove(target)`. */
  function RemoveDir(nodes: map<Path, Node>, target: string, names: seq<string>): (r: (Answer, map<Path, Node>))
    ensures r.0 == Deleted200 || r.0 == DeleteFailed
    ensures Shrinks(nodes, r.1)
    ensures r.0 == Deleted200 ==> Resolve(target) in nodes && Resolve(target) !in r.1
  {
    var p := Resolve(target);
    var (ok, n) := RemoveChildren(nodes, target, names);
    if !ok then RemoveOrFail(n, p)
    else match RemoveResult(n, p)
      case None => RemoveOrFail(n, p)
      case Some(n2) => (Deleted200, n2)
  }

  /** The loop over a directory's entries, stopping at the first removal that raises. */
  method RemoveEntries(fs: FileSystem, target: string, names: seq<string>) returns (ok: bool)
    requires fs.Valid()
    modifies fs`nodes
    ensures fs.Valid()
    ensures (ok, fs.nodes) == RemoveChildren(old(fs.nodes), target, names)
  {
    var i := 0;
    while i < |names|
      invariant 0 <= i <= |names| && fs.Valid()
      invariant RemoveChildren(fs.nodes, target, names[i..]) == RemoveChildren(old(fs.nodes), target, names)
    {
      assert names[i..][1..] == names[i + 1..];
      var removed := fs.Remove(target + "/" + names[i]);
      if !removed {
        return false;
      }
      i := i + 1;
    }
    assert names[i..] == [];
    return true;
  }

  /** The `/api/delete` route. */
  method HandleDelete(conn: Connection, fs: FileSystem, target: string)
    requires fs.Valid()
    modifies conn`output, fs`nodes
    ensures fs.Valid()
    ensures exists names :: ((!IsProtected(target) && IsDirIn(old(fs.nodes), Resolve(target)) ==> IsListing(old(fs.nodes), Resolve(target), names)) &&
      var r := DeleteResult(old(fs.nodes), target, names);
      conn.output == old(conn.output) + Send(r.0) && fs.nodes == r.1)
  {
    var answer: Answer;
    var names: seq<string> := [];
    if IsProtected(target) {
      answer := ProtectedAnswer;
    } else {
      var st := fs.Stat(target);
      if st.Some? && IsDirMode(st.value.mode) {
        var listing := fs.ListDir(target);
        names := listing.value;
        answer := DeleteDir(fs, target, names);
      } else {
        var ok := fs.Remove(target);
        answer := if ok then Deleted200 else DeleteFailed;
      }
    }
    assert (answer, fs.nodes) == DeleteResult(old(fs.nodes), target, names);
    assert !IsProtected(target) && IsDirIn(old(fs.nodes), Resolve(target)) ==> IsListing(old(fs.nodes), Resolve(target), names);
    conn.Write(Send(answer));
  }

  /** The directory branch on the filesystem: the entry loop, `os.rmdir`, and the fallback. */
  method DeleteDir(fs: FileSystem, target: string, names: seq<string>) returns (answer: Answer)
    requires fs.Valid()
    modifies fs`nodes
    ensures fs.Valid()
    ensures (answer, fs.nodes) == RemoveDir(old(fs.nodes), target, names)
  {
    var ok := RemoveEntries(fs, target, names);
    if ok {
      ok := fs.Remove(target);
    }
    if !ok {
      ok := fs.Remove(target);
      answer := if ok then Deleted200 else DeleteFailed;
    } else {
      answer := Deleted200;
    }
  }

  /** Deleting a file removes exactly that file. */
  lemma DeleteOfFile(nodes: map<Path, Node>, target: string, names: seq<string>)
    requires !IsProtected(target) && IsFileIn(nodes, Resolve(target))
    ensures DeleteResult(nodes, target, names) == (Deleted200, nodes - {Resolve(target)})
  {
  }

  /** Deleting what is not there answers 404 and changes nothing. */
  lemma DeleteMissing(nodes: map<Path, Node>, target: string, names: seq<string>)
    requires !IsProtected(target) && Resolve(target) != [] && Resolve(target) !in nodes
    ensures DeleteResult(nodes, target, names) == (DeleteFailed, nodes)
  {
  }

  // ---- /api/upload ----

  /** `b"--" + content_type.split("boundary=")[1].encode()`, or None where there is no `boundary=`. */
  function BoundaryOf(headers: Headers): (r: Option<Bytes>)
    ensures r.Some? <==> "Content-Type" in headers && Contains(headers["Content-Type"], "boundary=")
    ensures r.Some? ==> StartsWith(r.value, Encode("--"))
  {
    var ct := if "Content-Type" in headers then headers["Content-Type"] else "";
    if Contains(ct, "boundary=") then
      SplitFound(ct, "boundary=");
      var parts := Split(ct, "boundary=");
      assert (Encode("--") + Encode(parts[1]))[..|Encode("--")|] == Encode("--");
      Some(Encode("--") + Encode(parts[1]))
    else
      assert !Contains("", "boundary=");
      None
  }

  /** The answer to an upload: 200 on True, 500 on False, nothing when `save_upload` raised. */
  function UploadAnswer(outcome: Outcome): Option<Answer> {
    match outcome
    case Saved => Some(Answer(200, JsonType, "{\"status\": \"uploaded\"}"))
    case Refused => Some(Answer(500, JsonType, "{\"status\": \"failed\"}"))
    case Raised => None
  }

  const NoBoundary: Answer := Answer(400, JsonType, "{\"error\": \"no boundary\"}")

  /** The `/api/upload` route. */
  method HandleUpload(conn: Connection, fs: FileSystem, headers: Headers)
    requires conn.Valid() && fs.Valid()
    modifies conn`pos, conn`output, fs`nodes
    ensures conn.Valid() && fs.Valid()
    ensures BoundaryOf(headers).None? ==> conn.output == old(conn.output) + Send(NoBoundary) && fs.nodes == old(fs.nodes)
    ensures BoundaryOf(headers).Some? ==>
      var r := Phase0(LinesFrom(conn.input, old(conn.pos)), BoundaryOf(headers).value, None, old(fs.nodes));
      fs.nodes == r.1 &&
      conn.output == old(conn.output) + match UploadAnswer(r.0) case None => [] case Some(a) => Send(a)
  {
    var boundary := BoundaryOf(headers);
    if boundary.None? {
      conn.Write(Send(NoBoundary));
      return;
    }
    var success := SaveUpload(conn, fs, boundary.value);
    var answer := UploadAnswer(success);
    if answer.Some? {
      conn.Write(Send(answer.value));
    } else {
      assert conn.output == old(conn.output) + [];
    }
  }
}
