/**
 * `handle_client`: one connection from its first byte to its last. The
 * request line and headers are read, the credentials checked, the path
 * probed for a directory, and the route chosen by `Router.Route` decides
 * which handler answers. Every failure that raises inside the handler ends
 * the connection without a further answer.
 */
module Server {
  import opened Base
  import opened Stream
  import opened Wire
  import opened Request
  import opened Foreign
  import opened Auth
  import opened Fs
  import opened Router
  import opened Jobs
  import opened Upload
  import opened Handlers

  const Started: Answer := Answer(200, JsonType, "{\"status\": \"started\"}")
  const Stopping: Answer := Answer(200, JsonType, "{\"status\": \"stopping\"}")

  /** Where the body starts: after the request line and the header block that ends at the first blank line. */
  function BodyStart(input: Bytes): (n: nat)
    ensures LineEnd(input, 0) <= n <= |input|
  {
    BlockEnd(input, LineEnd(input, 0))
  }

  /** The smart-routing probe: `os.stat(check_path)` reports a directory; a `stat` that raises counts as no. */
  function IsDirProbe(nodes: map<Path, Node>, path: string): (r: bool)
    ensures r <==> IsDirIn(nodes, Resolve(CheckPath(CleanPath(path))))
  {
    match StatOf(nodes, Resolve(CheckPath(CleanPath(path))))
    case None => false
    case Some(st) => IsDirMode(st.mode)
  }

  /** The probe on the filesystem. */
  method Probe(fs: FileSystem, path: string) returns (isDir: bool)
    ensures isDir <==> IsDirIn(fs.nodes, Resolve(CheckPath(CleanPath(path))))
  {
    var st := fs.Stat(CheckPath(CleanPath(path)));
    isDir := st.Some? && IsDirMode(st.value.mode);
  }

  /** The stop flag of each registered script. */
  function Stopped(jobs: Registry): (r: map<string, bool>)
    reads jobs, jobs.flags.Values
    ensures r.Keys == jobs.flags.Keys
  {
    map k | k in jobs.flags :: jobs.flags[k].stopped
  }

  /** The registry is as it was, each flag set as in `stopped`. */
  ghost predicate KeptJobs(jobs: Registry, flags: map<string, Flag>, stopped: map<string, bool>)
    reads jobs, jobs.flags.Values
  {
    jobs.flags == flags && forall k :: k in jobs.flags && k in stopped ==> jobs.flags[k].stopped == stopped[k]
  }

  /** The route wrote `bytes` and nothing else changed: no file, no script, no flag. */
  ghost predicate OnlyWrote(conn: Connection, fs: FileSystem, jobs: Registry, before: Bytes, bytes: Bytes, nodes: map<Path, Node>, flags: map<string, Flag>, stopped: map<string, bool>)
    reads conn, fs, jobs, jobs.flags.Values
  {
    conn.output == before + bytes && fs.nodes == nodes && KeptJobs(jobs, flags, stopped)
  }

  /**
   * What the chosen route did, starting from the output `before`, the tree
   * `nodes` and the registry `flags` with its flags set as in `stopped`: the
   * bytes written, the tree left behind and the registry. A body is read from
   * `BodyStart`.
   */
  ghost predicate Dispatched(conn: Connection, fs: FileSystem, jobs: Registry, lib: Library, headers: Headers, a: Action,
                       before: Bytes, nodes: map<Path, Node>, flags: map<string, Flag>, stopped: map<string, bool>)
    reads conn, fs, jobs, jobs.flags.Values
  {
    if IsFileRoute(a) then FilesDone(conn, fs, lib, headers, a, before, nodes) && KeptJobs(jobs, flags, stopped)
    else JobsOrPlain(conn, fs, jobs, a, before, nodes, flags, stopped)
  }

  /** The routes that neither list, read a body nor change the tree: the two job routes, then what `PlainReply` writes. */
  ghost predicate JobsOrPlain(conn: Connection, fs: FileSystem, jobs: Registry, a: Action,
                              before: Bytes, nodes: map<Path, Node>, flags: map<string, Flag>, stopped: map<string, bool>)
    reads conn, fs, jobs, jobs.flags.Values
  {
    if a.RunJob? then Ran(conn, fs, jobs, a.target, before, nodes, flags, stopped)
    else if a.StopJob? then Halted(conn, fs, jobs, a.target, before, nodes, flags, stopped)
    else OnlyWrote(conn, fs, jobs, before, PlainReply(a, nodes, fs.volume), nodes, flags, stopped)
  }

  /** The routes that list, read a body or change the tree. */
  predicate IsFileRoute(a: Action) {
    a.ListFiles? || a.SaveFile? || a.DeleteFile? || a.UploadFile?
  }

  /** What the routes that change nothing write: a redirect, a file, the stats, a file's text, a 404 or nothing. */
  function PlainReply(a: Action, nodes: map<Path, Node>, volume: Option<(nat, nat, nat)>): Bytes {
    match a
    case RedirectTo(location) => Redirect(location)
    case ServeFile(file, mime) => FileReply(nodes, file, mime)
    case Stats => Send(StatsAnswer(volume))
    case ReadFile(target) => Send(ReadAnswer(nodes, target))
    case NotFound => Send(NotFoundAnswer)
    case _ => []
  }

  /** The file routes, each with what it writes and leaves in the tree. */
  ghost predicate FilesDone(conn: Connection, fs: FileSystem, lib: Library, headers: Headers, a: Action, before: Bytes, nodes: map<Path, Node>)
    reads conn, fs
  {
    (a.ListFiles? ==> Listed(conn, fs, lib, before, nodes)) &&
    (a.SaveFile? ==> Saved(conn, fs, lib, headers, before, nodes)) &&
    (a.DeleteFile? ==> Deleted(conn, fs, a.target, before, nodes)) &&
    (a.UploadFile? ==> Uploaded(conn, fs, headers, before, nodes))
  }

  /** `/api/files`: the listing of the root, whatever order `os.listdir` gives, and nothing changed. */
  ghost predicate Listed(conn: Connection, fs: FileSystem, lib: Library, before: Bytes, nodes: map<Path, Node>)
    reads conn, fs
  {
    exists names :: IsListing(nodes, [], names) &&
      conn.output == before + Send(Answer(200, JsonType, lib.dumps(Infos(nodes, names)))) && fs.nodes == nodes
  }

  /** `/api/run`: the target has a fresh, running flag; the other flags keep their state. */
  ghost predicate Ran(conn: Connection, fs: FileSystem, jobs: Registry, target: string,
                      before: Bytes, nodes: map<Path, Node>, flags: map<string, Flag>, stopped: map<string, bool>)
    reads conn, fs, jobs, jobs.flags.Values
  {
    conn.output == before + Send(Started) && fs.nodes == nodes &&
    target in jobs.flags && jobs.flags == flags[target := jobs.flags[target]] && !jobs.flags[target].stopped &&
    (forall k :: k in flags && k in stopped && k != target ==> jobs.flags[k].stopped == stopped[k])
  }

  /** `/api/stop`: the target's flag, or every flag for `ALL`, is set; nothing else changes. */
  ghost predicate Halted(conn: Connection, fs: FileSystem, jobs: Registry, target: string,
                         before: Bytes, nodes: map<Path, Node>, flags: map<string, Flag>, stopped: map<string, bool>)
    reads conn, fs, jobs, jobs.flags.Values
  {
    conn.output == before + Send(Stopping) && fs.nodes == nodes && jobs.flags == flags &&
    (forall k :: k in flags && k in stopped ==> jobs.flags[k].stopped == (stopped[k] || target == "ALL" || k == target))
  }

  /** `/api/save`: the body read from `BodyStart` with the announced length, and what saving it answers and leaves. */
  ghost predicate Saved(conn: Connection, fs: FileSystem, lib: Library, headers: Headers, before: Bytes, nodes: map<Path, Node>)
    reads conn, fs
  {
    var body := BodyStart(conn.input);
    match ContentLength(headers)
    case None => conn.output == before + Send(SaveFailed) && fs.nodes == nodes
    case Some(n) =>
      var r := SaveResult(nodes, conn.input[body..ReadEnd(|conn.input|, body, n)], lib.loads);
      conn.output == before + Send(r.0) && fs.nodes == r.1
  }

  /** `/api/delete`: what deleting the target answers and leaves, a directory going with the entries it lists. */
  ghost predicate Deleted(conn: Connection, fs: FileSystem, target: string, before: Bytes, nodes: map<Path, Node>)
    reads conn, fs
  {
    exists names :: ((!IsProtected(target) && IsDirIn(nodes, Resolve(target)) ==> IsListing(nodes, Resolve(target), names)) &&
      var r := DeleteResult(nodes, target, names);
      conn.output == before + Send(r.0) && fs.nodes == r.1)
  }

  /** `/api/upload`: the body's lines from `BodyStart` run through the multipart reader. */
  ghost predicate Uploaded(conn: Connection, fs: FileSystem, headers: Headers, before: Bytes, nodes: map<Path, Node>)
    reads conn, fs
  {
    match BoundaryOf(headers)
    case None => conn.output == before + Send(NoBoundary) && fs.nodes == nodes
    case Some(boundary) =>
      var r := Phase0(LinesFrom(conn.input, BodyStart(conn.input)), boundary, None, nodes);
      fs.nodes == r.1 && conn.output == before + (match UploadAnswer(r.0) case None => [] case Some(answer) => Send(answer))
  }

  /** The handler for the chosen route. */
  method Dispatch(conn: Connection, fs: FileSystem, jobs: Registry, lib: Library, headers: Headers, a: Action)
    requires conn.Valid() && conn.pos == BodyStart(conn.input) && fs.Valid() && jobs.Valid()
    modifies conn`pos, conn`output, fs`nodes, jobs, set k | k in jobs.flags :: jobs.flags[k]
    ensures conn.Valid() && fs.Valid() && jobs.Valid()
    ensures Dispatched(conn, fs, jobs, lib, headers, a, old(conn.output), old(fs.nodes), old(jobs.flags), old(Stopped(jobs)))
    ensures forall k :: k in jobs.flags && (k !in old(jobs.flags) || jobs.flags[k] != old(jobs.flags[k])) ==> fresh(jobs.flags[k])
  {
    if IsFileRoute(a) {
      assert KeptJobs(jobs, jobs.flags, Stopped(jobs));
      DispatchFiles(conn, fs, lib, headers, a);
    } else {
      DispatchOther(conn, fs, jobs, a);
    }
  }

  /** The job routes and the routes that change nothing. */
  method DispatchOther(conn: Connection, fs: FileSystem, jobs: Registry, a: Action)
    requires !IsFileRoute(a) && jobs.Valid()
    modifies conn`output, jobs, set k | k in jobs.flags :: jobs.flags[k]
    ensures jobs.Valid()
    ensures JobsOrPlain(conn, fs, jobs, a, old(conn.output), old(fs.nodes), old(jobs.flags), old(Stopped(jobs)))
    ensures forall k :: k in jobs.flags && (k !in old(jobs.flags) || jobs.flags[k] != old(jobs.flags[k])) ==> fresh(jobs.flags[k])
  {
    if a.RunJob? {
      RunRoute(conn, fs, jobs, a.target);
    } else if a.StopJob? {
      StopRoute(conn, fs, jobs, a.target);
    } else {
      assert KeptJobs(jobs, jobs.flags, Stopped(jobs));
      DispatchPlain(conn, fs, a);
    }
  }

  /** The routes that answer from the tree without changing it. */
  method DispatchPlain(conn: Connection, fs: FileSystem, a: Action)
    requires !IsFileRoute(a) && !a.RunJob? && !a.StopJob?
    modifies conn`output
    ensures conn.output == old(conn.output) + PlainReply(a, fs.nodes, fs.volume)
  {
    match a
    case RedirectTo(location) =>
      conn.Write(Redirect(location));
    case ServeFile(file, mime) =>
      SendFile(conn, fs, file, mime);
    case Stats =>
      var volume := fs.Statvfs();
      conn.Write(Send(StatsAnswer(volume)));
    case ReadFile(target) =>
      conn.Write(Send(ReadAnswer(fs.nodes, target)));
    case NotFound =>
      conn.Write(Send(NotFoundAnswer));
    case NoResponse =>
      assert conn.output == old(conn.output) + [];
  }

  /** `/api/run`: `running_flags[target] = [False]` and the thread started, then the answer. */
  method RunRoute(conn: Connection, fs: FileSystem, jobs: Registry, target: string)
    requires jobs.Valid()
    modifies conn`output, jobs
    ensures jobs.Valid()
    ensures Ran(conn, fs, jobs, target, old(conn.output), fs.nodes, old(jobs.flags), old(Stopped(jobs)))
    ensures forall k :: k in jobs.flags && (k !in old(jobs.flags) || jobs.flags[k] != old(jobs.flags[k])) ==> fresh(jobs.flags[k])
  {
    var flag := jobs.Run(target);
    conn.Write(Send(Started));
  }

  /** `/api/stop`: the stop flags set, then the answer. */
  method StopRoute(conn: Connection, fs: FileSystem, jobs: Registry, target: string)
    requires jobs.Valid()
    modifies conn`output, set k | k in jobs.flags :: jobs.flags[k]
    ensures jobs.Valid()
    ensures Halted(conn, fs, jobs, target, old(conn.output), fs.nodes, old(jobs.flags), old(Stopped(jobs)))
  {
    jobs.Stop(target);
    conn.Write(Send(Stopping));
  }

  /** The routes that list, read a body or change the tree. */
  method DispatchFiles(conn: Connection, fs: FileSystem, lib: Library, headers: Headers, a: Action)
    requires IsFileRoute(a)
    requires conn.Valid() && conn.pos == BodyStart(conn.input) && fs.Valid()
    modifies conn`pos, conn`output, fs`nodes
    ensures conn.Valid() && fs.Valid()
    ensures FilesDone(conn, fs, lib, headers, a, old(conn.output), old(fs.nodes))
  {
    match a
    case ListFiles =>
      ListRoute(conn, fs, lib);
    case SaveFile =>
      SaveRoute(conn, fs, lib, headers);
    case DeleteFile(target) =>
      DeleteRoute(conn, fs, target);
    case UploadFile =>
      UploadRoute(conn, fs, headers);
  }

  /** `/api/files`. */
  method ListRoute(conn: Connection, fs: FileSystem, lib: Library)
    requires fs.Valid()
    modifies conn`output
    ensures Listed(conn, fs, lib, old(conn.output), old(fs.nodes))
  {
    Handlers.ListFiles(conn, fs, lib.dumps);
  }

  /** `/api/save`, its body starting where the headers end. */
  method SaveRoute(conn: Connection, fs: FileSystem, lib: Library, headers: Headers)
    requires conn.Valid() && conn.pos == BodyStart(conn.input) && fs.Valid()
    modifies conn`pos, conn`output, fs`nodes
    ensures conn.Valid() && fs.Valid()
    ensures Saved(conn, fs, lib, headers, old(conn.output), old(fs.nodes))
  {
    HandleSave(conn, fs, headers, lib.loads);
  }

  /** `/api/delete`. */
  method DeleteRoute(conn: Connection, fs: FileSystem, target: string)
    requires fs.Valid()
    modifies conn`output, fs`nodes
    ensures fs.Valid()
    ensures Deleted(conn, fs, target, old(conn.output), old(fs.nodes))
  {
    HandleDelete(conn, fs, target);
  }

  /** `/api/upload`, its body starting where the headers end. */
  method UploadRoute(conn: Connection, fs: FileSystem, headers: Headers)
    requires conn.Valid() && conn.pos == BodyStart(conn.input) && fs.Valid()
    modifies conn`pos, conn`output, fs`nodes
    ensures conn.Valid() && fs.Valid()
    ensures Uploaded(conn, fs, headers, old(conn.output), old(fs.nodes))
  {
    HandleUpload(conn, fs, headers);
  }

  /**
   * What happens once `req` is read: a 401 challenge and nothing else when
   * the credentials fail, otherwise the route chosen from the method, the
   * path and the directory probe on `nodes`.
   */
  ghost predicate Served(conn: Connection, fs: FileSystem, jobs: Registry, lib: Library, req: Request,
                         before: Bytes, nodes: map<Path, Node>, flags: map<string, Flag>, stopped: map<string, bool>)
    reads conn, fs, jobs, jobs.flags.Values
  {
    if CheckAuth(req.headers, lib.a2bBase64) then
      Dispatched(conn, fs, jobs, lib, req.headers, Route(req.verb, req.path, IsDirProbe(nodes, req.path)), before, nodes, flags, stopped)
    else OnlyWrote(conn, fs, jobs, before, Challenge(), nodes, flags, stopped)
  }

  /**
   * `handle_client(reader, writer)`: a request that cannot be read (no
   * request line, not three words, a header line without `:`, bytes that
   * are not UTF-8) is dropped without an answer.
   */
  method HandleClient(conn: Connection, fs: FileSystem, jobs: Registry, lib: Library)
    requires conn.Valid() && conn.pos == 0 && fs.Valid() && jobs.Valid()
    modifies conn`pos, conn`output, fs`nodes, jobs, set k | k in jobs.flags :: jobs.flags[k]
    ensures conn.Valid() && fs.Valid() && jobs.Valid()
    ensures ParseRequest(conn.input).None? ==>
      OnlyWrote(conn, fs, jobs, old(conn.output), [], old(fs.nodes), old(jobs.flags), old(Stopped(jobs)))
    ensures ParseRequest(conn.input).Some? ==>
      Served(conn, fs, jobs, lib, ParseRequest(conn.input).value, old(conn.output), old(fs.nodes), old(jobs.flags), old(Stopped(jobs)))
    ensures forall k :: k in jobs.flags && (k !in old(jobs.flags) || jobs.flags[k] != old(jobs.flags[k])) ==> fresh(jobs.flags[k])
  {
    ghost var stopped := Stopped(jobs);
    var req := ReadRequest(conn);
    assert conn.output == old(conn.output) && Stopped(jobs) == stopped;
    if req.None? {
      assert conn.output == old(conn.output) + [];
      return;
    }
    Serve(conn, fs, jobs, lib, req.value);
  }

  /** Everything after the request is read: the credentials, then the route. */
  method Serve(conn: Connection, fs: FileSystem, jobs: Registry, lib: Library, req: Request)
    requires conn.Valid() && conn.pos == BodyStart(conn.input) && fs.Valid() && jobs.Valid()
    modifies conn`pos, conn`output, fs`nodes, jobs, set k | k in jobs.flags :: jobs.flags[k]
    ensures conn.Valid() && fs.Valid() && jobs.Valid()
    ensures Served(conn, fs, jobs, lib, req, old(conn.output), old(fs.nodes), old(jobs.flags), old(Stopped(jobs)))
    ensures forall k :: k in jobs.flags && (k !in old(jobs.flags) || jobs.flags[k] != old(jobs.flags[k])) ==> fresh(jobs.flags[k])
  {
    if !CheckAuth(req.headers, lib.a2bBase64) {
      Refuse(conn, fs, jobs);
    } else {
      ServeRoute(conn, fs, jobs, lib, req);
    }
  }

  /** An authorised request: the directory probe, the route it selects, and that route's handler. */
  method ServeRoute(conn: Connection, fs: FileSystem, jobs: Registry, lib: Library, req: Request)
    requires conn.Valid() && conn.pos == BodyStart(conn.input) && fs.Valid() && jobs.Valid()
    modifies conn`pos, conn`output, fs`nodes, jobs, set k | k in jobs.flags :: jobs.flags[k]
    ensures conn.Valid() && fs.Valid() && jobs.Valid()
    ensures Dispatched(conn, fs, jobs, lib, req.headers, Route(req.verb, req.path, IsDirProbe(old(fs.nodes), req.path)),
                       old(conn.output), old(fs.nodes), old(jobs.flags), old(Stopped(jobs)))
    ensures forall k :: k in jobs.flags && (k !in old(jobs.flags) || jobs.flags[k] != old(jobs.flags[k])) ==> fresh(jobs.flags[k])
  {
    var isDir := Probe(fs, req.path);
    var a := Route(req.verb, req.path, isDir);
    Dispatch(conn, fs, jobs, lib, req.headers, a);
  }

  /** `send_auth_challenge(writer)`: the 401 and nothing else. */
  method Refuse(conn: Connection, fs: FileSystem, jobs: Registry)
    modifies conn`output
    ensures OnlyWrote(conn, fs, jobs, old(conn.output), Challenge(), fs.nodes, jobs.flags, Stopped(jobs))
  {
    conn.Write(Challenge());
  }
}
