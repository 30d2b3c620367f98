/**
 * The dispatch decision of `handle_client` once a request is authenticated:
 * from the method, the raw path and whether the probed path is a directory,
 * to a redirect, a static file, one of the API routes or 404. Also the two
 * ad-hoc helpers the API routes share: the target taken from the raw path
 * and the locked-name guard.
 */
module Router {
  import opened Base
  import opened Text
  import opened Fs

  /** `LOCKED_FILES`: names the API refuses to read, overwrite, delete or list. */
  const LockedFiles: seq<string> := ["boot.py", "main.py", "server.py", "index.html", "style.css", "app.js", "webrepl_cfg.py", "uploads"]

  /** `name in LOCKED_FILES and "/" not in name`. */
  predicate IsProtected(name: string) {
    name in LockedFiles && '/' !in name
  }

  /** The `/` test never changes the guard's answer: no locked name holds a `/`. */
  lemma ProtectedIffLocked(name: string)
    ensures IsProtected(name) <==> name in LockedFiles
  {
    assert forall j :: 0 <= j < |LockedFiles| ==> '/' !in LockedFiles[j];
  }

  /** A locked name is a single plain path component. */
  lemma LockedIsPlainName(name: string)
    requires name in LockedFiles
    ensures |name| > 0 && '/' !in name && name != "." && name != ".."
  {
    assert forall j :: 0 <= j < |LockedFiles| ==> '/' !in LockedFiles[j];
  }

  /**
   * The guard looks at the name as written, not at the file it names: with a
   * leading `/` or `./`, a locked file is reached through an unprotected name.
   */
  lemma GuardIsTextual(name: string)
    requires name in LockedFiles
    ensures !IsProtected("/" + name) && Resolve("/" + name) == [name]
    ensures !IsProtected("./" + name) && Resolve("./" + name) == [name]
    ensures IsProtected(name) && Resolve(name) == [name]
  {
    LockedIsPlainName(name);
    ProtectedIffLocked(name);
    ResolveName(name);
    assert ("/" + name)[0] == '/';
    assert ("./" + name)[1] == '/';
  }

  // ---- Paths ----

  /** `path.split('?')[0]`: the path without its query string. */
  function StripQuery(path: string): (r: string)
    ensures '?' !in r && StartsWith(path, r)
    ensures r == path || path[|r|] == '?'
  {
    var r := Split(path, "?")[0];
    NotContainedSingle(r, '?');
    FirstPieceRest(path, '?');
    r
  }

  lemma FirstPieceRest(s: string, sep: char)
    ensures var n := |Split(s, [sep])[0]|;
      n <= |s| && s[..n] == Split(s, [sep])[0] && (n == |s| || s[n] == sep)
  {
    SplitFirstRest(s, sep);
  }

  /** The path the router works with: the query dropped, `/` standing for `/index.html`. */
  function CleanPath(path: string): (r: string)
    ensures StripQuery(path) == "/" ==> r == "/index.html"
    ensures StripQuery(path) != "/" ==> r == StripQuery(path)
  {
    var c := StripQuery(path);
    if c == "/" then "/index.html" else c
  }

  /** The name probed with `os.stat`: one leading `/` removed, and `.` for nothing. */
  function CheckPath(clean: string): (r: string)
    ensures r != ""
    ensures StartsWith(clean, "/") && |clean| > 1 ==> r == clean[1..]
    ensures !StartsWith(clean, "/") && clean != "" ==> r == clean
  {
    var c := if StartsWith(clean, "/") then clean[1..] else clean;
    if c == "" then "." else c
  }

  /** The path served after the directory probe: a directory gets `index.html` appended. */
  function ServedPath(clean: string, isDir: bool): string {
    if isDir then clean + "index.html" else clean
  }

  /** The static suffixes, in the order they are tried, with their MIME types. */
  function StaticMime(p: string): (r: Option<string>)
    ensures r.Some? <==> EndsWith(p, ".html") || EndsWith(p, ".css") || EndsWith(p, ".js") || EndsWith(p, ".png") || EndsWith(p, ".jpg")
    ensures EndsWith(p, ".html") ==> r == Some("text/html")
  {
    if EndsWith(p, ".html") then Some("text/html")
    else if EndsWith(p, ".css") then Some("text/css")
    else if EndsWith(p, ".js") then Some("application/javascript")
    else if EndsWith(p, ".png") then Some("image/png")
    else if EndsWith(p, ".jpg") then Some("image/jpeg")
    else None
  }

  // ---- Target extraction ----

  /** `path.split("=")[1]`; None where it raises because the path has no `=`. */
  function Target(path: string): (r: Option<string>)
    ensures r.Some? <==> '=' in path
  {
    var parts := Split(path, "=");
    if |parts| < 2 then
      assert '=' !in path by {
        SplitJoin(path, "=");
        NotContainedSingle(parts[0], '=');
      }
      None
    else
      SplitSecond(path, '=');
      Some(parts[1])
  }

  /** `path` is some text, `=`, the target, and then nothing or another `=`. */
  predicate TargetAt(path: string, before: string, target: string, rest: string) {
    path == before + "=" + target + rest && '=' !in before && '=' !in target && (rest == [] || rest[0] == '=')
  }

  /** The target is the text between the first and the second `=`, not all that follows the first. */
  lemma TargetBetween(path: string, before: string, target: string, rest: string)
    requires TargetAt(path, before, target, rest)
    ensures Target(path) == Some(target)
  {
    SecondPiece(path, before, target, rest, '=');
  }

  /** Every target returned sits between the first and the second `=`. */
  lemma TargetSits(path: string)
    requires Target(path).Some?
    ensures exists before, rest :: TargetAt(path, before, Target(path).value, rest)
  {
    var p := Split(path, "=");
    SplitSecond(path, '=');
    NotContainedSingle(p[0], '=');
    NotContainedSingle(p[1], '=');
    var rest := path[|p[0]| + 1 + |p[1]|..];
    assert TargetAt(path, p[0], p[1], rest);
  }

  // ---- The decision ----

  datatype Action =
    | RedirectTo(location: string)
    | ServeFile(file: string, mime: string)
    | ListFiles
    | RunJob(target: string)
    | StopJob(target: string)
    | Stats
    | ReadFile(target: string)
    | SaveFile
    | DeleteFile(target: string)
    | UploadFile
    | NotFound
    /** The target could not be extracted: the exception closes the connection unanswered. */
    | NoResponse

  /** The API route conditions, in the order they are tried; `p` is the served path. */
  predicate ApiMatch(verb: string, path: string, p: string) {
    (p == "/api/files" && verb == "GET") ||
    (StartsWith(path, "/api/run") && verb == "POST") ||
    (StartsWith(path, "/api/stop") && verb == "POST") ||
    p == "/api/stats" ||
    (StartsWith(path, "/api/read") && verb == "GET") ||
    (p == "/api/save" && verb == "POST") ||
    (StartsWith(path, "/api/delete") && verb == "POST") ||
    (p == "/api/upload" && verb == "POST")
  }

  /** The API routes, tried in order on the served path `p` and the raw `path`. */
  function Api(verb: string, path: string, p: string): (a: Action)
    ensures !a.RedirectTo? && !a.ServeFile?
    ensures a.NotFound? <==> !ApiMatch(verb, path, p)
    ensures a.NoResponse? ==> Target(path).None?
    ensures a.RunJob? || a.StopJob? || a.ReadFile? || a.DeleteFile? ==> Target(path) == Some(a.target)
  {
    var t := Target(path);
    if p == "/api/files" && verb == "GET" then ListFiles
    else if StartsWith(path, "/api/run") && verb == "POST" then
      if t.None? then NoResponse else RunJob(t.value)
    else if StartsWith(path, "/api/stop") && verb == "POST" then
      if t.None? then NoResponse else StopJob(t.value)
    else if p == "/api/stats" then Stats
    else if StartsWith(path, "/api/read") && verb == "GET" then
      if t.None? then NoResponse else ReadFile(t.value)
    else if p == "/api/save" && verb == "POST" then SaveFile
    else if StartsWith(path, "/api/delete") && verb == "POST" then
      if t.None? then NoResponse else DeleteFile(t.value)
    else if p == "/api/upload" && verb == "POST" then UploadFile
    else NotFound
  }

  /**
   * Where an authenticated request goes. `isDir` is whether `os.stat` of
   * `CheckPath(CleanPath(path))` reports a directory.
   */
  function Route(verb: string, path: string, isDir: bool): (a: Action)
    ensures a.RedirectTo? <==> isDir && !EndsWith(CleanPath(path), "/")
    ensures a.RedirectTo? ==> a.location == CleanPath(path) + "/"
    ensures a.ServeFile? <==> !a.RedirectTo? && StaticMime(ServedPath(CleanPath(path), isDir)).Some?
    ensures a.ServeFile? ==> a.file == ServedPath(CleanPath(path), isDir) && a.mime == StaticMime(a.file).value
    ensures a.NotFound? <==> !a.RedirectTo? && !a.ServeFile? && !ApiMatch(verb, path, ServedPath(CleanPath(path), isDir))
    ensures a.NoResponse? ==> Target(path).None?
    ensures a.RunJob? || a.StopJob? || a.ReadFile? || a.DeleteFile? ==> Target(path) == Some(a.target)
  {
    var clean := CleanPath(path);
    if isDir && !EndsWith(clean, "/") then RedirectTo(clean + "/")
    else
      var p := ServedPath(clean, isDir);
      match StaticMime(p)
      case Some(mime) => ServeFile(p, mime)
      case None => Api(verb, path, p)
  }

  /** A static suffix wins over every API route, whatever the method. */
  lemma StaticFirst(verb: string, path: string)
    requires StartsWith(path, "/api/") && '?' !in path && EndsWith(path, ".js")
    ensures Route(verb, path, false) == ServeFile(path, "application/javascript")
  {
    assert Split(path, "?") == [path] by {
      NoElemFind(path, [], '?');
      assert path + [] == path;
    }
    assert path != "/";
    assert !EndsWith(path, ".html") by {
      assert path[|path| - 1] == 's';
    }
    assert !EndsWith(path, ".css") by {
      assert path[|path| - 3..][0] == path[|path| - 3];
      assert path[|path| - 3..] == ".js";
    }
  }
}
