/**
 * The multipart upload: `save_upload` walks the request body line by line.
 * In state 0 it looks for a `filename="` line (sanitising the name, refusing
 * a bare locked name, creating intermediate directories with `ensure_dir`)
 * and for the blank line that ends the part header, where it opens the file;
 * in state 1 it copies every line into the file until one holds the boundary.
 */
module Upload {
  import opened Base
  import opened Text
  import opened Utf8
  import opened Stream
  import opened Fs
  import opened Router

  /** `b'filename="'`. */
  const FilenameMarker: Bytes := [0x66, 0x69, 0x6C, 0x65, 0x6E, 0x61, 0x6D, 0x65, 0x3D, 0x22]

  // ---- The file name ----

  /** `fn.replace("..", "")`, then one leading `/` dropped. */
  function Sanitize(fn: string): (r: string)
    ensures NoDotDot(r)
  {
    var s := Replace(fn, "..", "");
    RemoveDotDot(fn);
    if StartsWith(s, "/") then
      assert forall j :: 0 <= j < |s| - 2 ==> s[1..][j] == s[j + 1];
      s[1..]
    else s
  }

  lemma {:induction false} ReplaceAbsent(s: string)
    requires NoDotDot(s)
    ensures Replace(s, "..", "") == s
    decreases |s|
  {
    if |s| >= 2 {
      assert s[..2] != ".." by {
        assert s[..2][0] == s[0] && s[..2][1] == s[1];
      }
      ReplaceAbsent(s[1..]);
    }
  }

  /** A name that is already clean passes unchanged. */
  lemma SanitizeClean(fn: string)
    requires NoDotDot(fn) && !StartsWith(fn, "/")
    ensures Sanitize(fn) == fn
  {
    ReplaceAbsent(fn);
  }

  /** The name in a `filename="..."` line: decoded, the text between the marker and the next quote, sanitised. */
  function NamedFile(line: Bytes): (r: Option<string>)
    ensures r.Some? ==> NoDotDot(r.value)
  {
    match Decode(line)
    case None => None
    case Some(text) =>
      var parts := Split(text, "filename=\"");
      if |parts| < 2 then None else Some(Sanitize(Split(parts[1], "\"")[0]))
  }

  // ---- ensure_dir ----

  /** `current` after the components `acc`: each followed by a `/`. */
  function Dirs(acc: seq<string>): string {
    if acc == [] then "" else Dirs(acc[..|acc| - 1]) + acc[|acc| - 1] + "/"
  }

  function MkdirOrKeep(nodes: map<Path, Node>, p: Path): map<Path, Node> {
    match MkdirResult(nodes, p)
    case None => nodes
    case Some(n) => n
  }

  /** The loop of `ensure_dir` over the remaining components `parts`, with `acc` walked so far. */
  function EnsureLoop(nodes: map<Path, Node>, parts: seq<string>, acc: seq<string>): map<Path, Node>
    decreases |parts|
  {
    if parts == [] then nodes
    else if parts[0] == "." || parts[0] == "" then EnsureLoop(nodes, parts[1..], acc)
    else EnsureLoop(Step(nodes, acc + [parts[0]]), parts[1..], acc + [parts[0]])
  }

  /** One directory of `ensure_dir`: `current` is probed with `stat` and, where that raises, made with `mkdir`. */
  function Step(nodes: map<Path, Node>, acc: seq<string>): map<Path, Node> {
    var current := Dirs(acc);
    if StatOf(nodes, Resolve(current)).Some? then nodes else MkdirOrKeep(nodes, Resolve(RStripChar(current, '/')))
  }

  /** All components but the last. */
  function DirParts(path: string): seq<string> {
    var parts := Split(path, "/");
    parts[..|parts| - 1]
  }

  /** What `ensure_dir(path)` leaves behind. */
  function EnsureDirSpec(nodes: map<Path, Node>, path: string): map<Path, Node> {
    EnsureLoop(nodes, DirParts(path), [])
  }

  /** `ensure_dir(path)`: every failure inside it is swallowed. */
  method EnsureDir(fs: FileSystem, path: string)
    requires fs.Valid()
    modifies fs`nodes
    ensures fs.Valid()
    ensures fs.nodes == EnsureDirSpec(old(fs.nodes), path)
  {
    var dirs := DirParts(path);
    var current := "";
    ghost var acc: seq<string> := [];
    var i := 0;
    while i < |dirs|
      invariant 0 <= i <= |dirs| && fs.Valid()
      invariant current == Dirs(acc)
      invariant EnsureLoop(fs.nodes, dirs[i..], acc) == EnsureDirSpec(old(fs.nodes), path)
    {
      var p := dirs[i];
      assert dirs[i..][1..] == dirs[i + 1..];
      if p == "." || p == "" {
        i := i + 1;
        continue;
      }
      current := current + p + "/";
      acc := acc + [p];
      var st := fs.Stat(current);
      if st.None? {
        var _ := fs.Mkdir(RStripChar(current, '/'));
      }
      i := i + 1;
    }
  }

  /** `after` is `before` with some directories added and nothing else changed. */
  predicate AddsOnlyDirs(before: map<Path, Node>, after: map<Path, Node>) {
    before.Keys <= after.Keys &&
    (forall q :: q in before ==> after[q] == before[q]) &&
    (forall q :: q in after && q !in before ==> after[q] == Dir)
  }

  lemma {:induction false} EnsureLoopAddsOnlyDirs(nodes: map<Path, Node>, parts: seq<string>, acc: seq<string>)
    ensures AddsOnlyDirs(nodes, EnsureLoop(nodes, parts, acc))
    decreases |parts|
  {
    if parts != [] {
      if parts[0] == "." || parts[0] == "" {
        EnsureLoopAddsOnlyDirs(nodes, parts[1..], acc);
      } else {
        EnsureLoopAddsOnlyDirs(Step(nodes, acc + [parts[0]]), parts[1..], acc + [parts[0]]);
      }
    }
  }

  /** `ensure_dir` never touches an existing entry and creates nothing but directories. */
  lemma EnsureDirAddsOnlyDirs(nodes: map<Path, Node>, path: string)
    ensures AddsOnlyDirs(nodes, EnsureDirSpec(nodes, path))
  {
    EnsureLoopAddsOnlyDirs(nodes, DirParts(path), []);
  }

  /** A component that names a directory entry: not empty, not `.` or `..`, no `/`. */
  predicate Plain(s: string) {
    s != "" && s != "." && s != ".." && '/' !in s
  }

  predicate AllPlain(xs: seq<string>) {
    forall k :: 0 <= k < |xs| ==> Plain(xs[k])
  }

  /** The components `ensure_dir` creates, in order: the non-empty, non-`.` ones before the last `/`. */
  function Chain(parts: seq<string>): seq<string>
    decreases |parts|
  {
    if parts == [] then []
    else if parts[0] == "." || parts[0] == "" then Chain(parts[1..])
    else [parts[0]] + Chain(parts[1..])
  }

  lemma {:induction false} DirsFront(acc: seq<string>)
    requires acc != []
    ensures Dirs(acc) == acc[0] + "/" + Dirs(acc[1..])
    decreases |acc|
  {
    if |acc| > 1 {
      var init := acc[..|acc| - 1];
      DirsFront(init);
      assert init[1..] == acc[1..][..|acc[1..]| - 1];
      assert init[0] == acc[0];
    }
  }

  lemma {:induction false} SplitDirs(acc: seq<string>, tail: string)
    requires forall k :: 0 <= k < |acc| ==> '/' !in acc[k]
    requires '/' !in tail
    ensures Split(Dirs(acc) + tail, "/") == acc + [tail]
    decreases |acc|
  {
    if acc == [] {
      SplitNone(tail, '/');
      assert Dirs(acc) + tail == tail;
    } else {
      DirsFront(acc);
      var rest := Dirs(acc[1..]) + tail;
      AppendAssoc(acc[0] + "/", Dirs(acc[1..]), tail);
      SplitCons(acc[0], rest, '/');
      SplitDirs(acc[1..], tail);
      AppendAssoc([acc[0]], acc[1..], [tail]);
      assert [acc[0]] + acc[1..] == acc;
    }
  }

  lemma {:induction false} NormalizePlain(xs: seq<string>, pre: Path)
    requires AllPlain(xs)
    ensures Normalize(xs, pre) == pre + xs
    ensures Normalize(xs + [""], pre) == pre + xs
    decreases |xs|
  {
    if xs == [] {
      assert Normalize([""], pre) == Normalize([], pre);
    } else {
      assert (xs + [""])[1..] == xs[1..] + [""];
      NormalizePlain(xs[1..], pre + [xs[0]]);
      assert pre + [xs[0]] + xs[1..] == pre + xs;
    }
  }

  /** `current` names the directory made of the components walked so far. */
  lemma ResolveDirs(acc: seq<string>)
    requires AllPlain(acc)
    ensures Resolve(Dirs(acc)) == acc
  {
    SplitDirs(acc, "");
    assert Dirs(acc) + "" == Dirs(acc);
    NormalizePlain(acc, []);
  }

  lemma RStripDirs(acc: seq<string>)
    requires acc != [] && AllPlain(acc)
    ensures RStripChar(Dirs(acc), '/') == Dirs(acc[..|acc| - 1]) + acc[|acc| - 1]
  {
    var last := acc[|acc| - 1];
    var x := Dirs(acc[..|acc| - 1]) + last;
    assert Dirs(acc) == x + ['/'];
    assert x[|x| - 1] == last[|last| - 1];
    assert RStripChar(x + ['/'], '/') == RStripChar(x, '/') by {
      assert (x + ['/'])[..|x|] == x;
    }
    assert RStripChar(x, '/') == x by {
      assert last[|last| - 1] in last;
    }
  }

  /** So does `current.rstrip('/')`, the name handed to `mkdir`. */
  lemma ResolveStripped(acc: seq<string>)
    requires acc != [] && AllPlain(acc)
    ensures Resolve(RStripChar(Dirs(acc), '/')) == acc
  {
    var init := acc[..|acc| - 1];
    var last := acc[|acc| - 1];
    assert init + [last] == acc;
    RStripDirs(acc);
    assert forall k :: 0 <= k < |init| ==> init[k] == acc[k];
    SplitDirs(init, last);
    NormalizePlain(init + [last], []);
  }

  /** A step adds at most the directory `acc`, and keeps every entry. */
  lemma StepAdds(nodes: map<Path, Node>, acc: seq<string>)
    requires acc != [] && AllPlain(acc)
    ensures nodes.Keys <= Step(nodes, acc).Keys
    ensures forall q :: q in Step(nodes, acc) && q !in nodes ==> q == acc
    ensures forall q :: q in nodes ==> Step(nodes, acc)[q] == nodes[q]
    ensures IsDirIn(nodes, Parent(acc)) && !IsFileIn(nodes, acc) ==> IsDirIn(Step(nodes, acc), acc)
    ensures WellFormed(nodes) ==> WellFormed(Step(nodes, acc))
  {
    ResolveDirs(acc);
    ResolveStripped(acc);
    if StatOf(nodes, acc).None? && MkdirResult(nodes, acc).Some? {
      if WellFormed(nodes) {
        MkdirWellFormed(nodes, acc);
      }
    }
  }

  lemma ChainHead(parts: seq<string>)
    requires parts != [] && parts[0] != "." && parts[0] != "" && AllPlain(Chain(parts))
    ensures Chain(parts) == [parts[0]] + Chain(parts[1..])
    ensures Plain(parts[0]) && AllPlain(Chain(parts[1..]))
  {
    assert Chain(parts)[0] == parts[0];
    forall k | 0 <= k < |Chain(parts[1..])| ensures Plain(Chain(parts[1..])[k]) {
      assert Chain(parts[1..])[k] == Chain(parts)[k + 1];
    }
  }

  /** `p` is one of the directories of `chain`: a non-empty prefix of it. */
  predicate IsChainPrefix(p: Path, chain: seq<string>) {
    1 <= |p| <= |chain| && p == chain[..|p|]
  }

  predicate NoUpLevel(parts: seq<string>) {
    forall k :: 0 <= k < |parts| ==> parts[k] != ".."
  }

  lemma ChainPlain(parts: seq<string>)
    requires NoUpLevel(parts) && forall k :: 0 <= k < |parts| ==> '/' !in parts[k]
    ensures AllPlain(Chain(parts))
    decreases |parts|
  {
    if parts != [] {
      ChainPlain(parts[1..]);
    }
  }

  /** The set reasoning of one step: what the rest adds is a longer prefix, and the step adds `acc'` itself. */
  lemma PrefixesCons(nodes: map<Path, Node>, n: map<Path, Node>, after: map<Path, Node>, acc: seq<string>, x: string, tail: seq<string>)
    requires nodes.Keys <= n.Keys
    requires forall q :: q in n && q !in nodes ==> q == acc + [x]
    requires forall q :: q in after && q !in n ==> |acc + [x]| < |q| && IsChainPrefix(q, acc + [x] + tail)
    ensures forall q :: q in after && q !in nodes ==> |acc| < |q| && IsChainPrefix(q, acc + ([x] + tail))
  {
    assert acc + [x] + tail == acc + ([x] + tail);
    forall q | q in after && q !in nodes
      ensures |acc| < |q| && IsChainPrefix(q, acc + ([x] + tail))
    {
      if q in n {
        assert (acc + [x] + tail)[..|acc| + 1] == acc + [x];
      }
    }
  }

  lemma {:induction false} EnsureLoopOnlyPrefixes(nodes: map<Path, Node>, parts: seq<string>, acc: seq<string>)
    requires AllPlain(acc) && AllPlain(Chain(parts))
    ensures forall q :: q in EnsureLoop(nodes, parts, acc) && q !in nodes ==> |acc| < |q| && IsChainPrefix(q, acc + Chain(parts))
    decreases |parts|
  {
    if parts != [] {
      if parts[0] == "." || parts[0] == "" {
        EnsureLoopOnlyPrefixes(nodes, parts[1..], acc);
      } else {
        var acc' := acc + [parts[0]];
        ChainHead(parts);
        var n := Step(nodes, acc');
        StepAdds(nodes, acc');
        EnsureLoopOnlyPrefixes(n, parts[1..], acc');
        PrefixesCons(nodes, n, EnsureLoop(n, parts[1..], acc'), acc, parts[0], Chain(parts[1..]));
      }
    }
  }

  /** Without `..` components, `ensure_dir` creates only the non-empty, non-`.` proper prefixes of the path. */
  lemma EnsureDirOnlyPrefixes(nodes: map<Path, Node>, path: string)
    requires NoUpLevel(DirParts(path))
    ensures forall q :: q in EnsureDirSpec(nodes, path) && q !in nodes ==> IsChainPrefix(q, Chain(DirParts(path)))
  {
    var parts := Split(path, "/");
    forall k | 0 <= k < |DirParts(path)| ensures '/' !in DirParts(path)[k] {
      NotContainedSingle(parts[k], '/');
    }
    ChainPlain(DirParts(path));
    EnsureLoopOnlyPrefixes(nodes, DirParts(path), []);
    assert [] + Chain(DirParts(path)) == Chain(DirParts(path));
  }

  /** No file on the rest of the chain after a step that adds at most the directory `acc + [x]`. */
  lemma NoFileCons(nodes: map<Path, Node>, n: map<Path, Node>, acc: seq<string>, x: string, tail: seq<string>)
    requires nodes.Keys <= n.Keys
    requires forall q :: q in n && q !in nodes ==> q == acc + [x]
    requires forall q :: q in nodes ==> n[q] == nodes[q]
    requires forall k :: |acc| < k <= |acc + ([x] + tail)| ==> !IsFileIn(nodes, (acc + ([x] + tail))[..k])
    ensures !IsFileIn(nodes, acc + [x])
    ensures forall k :: |acc + [x]| < k <= |acc + [x] + tail| ==> !IsFileIn(n, (acc + [x] + tail)[..k])
  {
    var full := acc + ([x] + tail);
    assert acc + [x] + tail == full;
    assert full[..|acc| + 1] == acc + [x];
    forall k | |acc + [x]| < k <= |full| ensures !IsFileIn(n, full[..k]) {
      assert |full[..k]| != |acc + [x]|;
      assert !IsFileIn(nodes, full[..k]);
    }
  }

  lemma {:induction false} EnsureLoopBuildsChain(nodes: map<Path, Node>, parts: seq<string>, acc: seq<string>)
    requires WellFormed(nodes) && IsDirIn(nodes, acc)
    requires AllPlain(acc) && AllPlain(Chain(parts))
    requires forall k :: |acc| < k <= |acc + Chain(parts)| ==> !IsFileIn(nodes, (acc + Chain(parts))[..k])
    ensures WellFormed(EnsureLoop(nodes, parts, acc))
    ensures IsDirIn(EnsureLoop(nodes, parts, acc), acc + Chain(parts))
    decreases |parts|
  {
    if parts == [] {
      assert acc + [] == acc;
    } else if parts[0] == "." || parts[0] == "" {
      EnsureLoopBuildsChain(nodes, parts[1..], acc);
    } else {
      var acc' := acc + [parts[0]];
      var n := Step(nodes, acc');
      assert EnsureLoop(nodes, parts, acc) == EnsureLoop(n, parts[1..], acc');
      BuildStep(nodes, parts, acc);
      EnsureLoopBuildsChain(n, parts[1..], acc');
    }
  }

  /** One directory of the chain made: the rest of the chain is still free of files. */
  lemma BuildStep(nodes: map<Path, Node>, parts: seq<string>, acc: seq<string>)
    requires WellFormed(nodes) && IsDirIn(nodes, acc)
    requires AllPlain(acc) && AllPlain(Chain(parts))
    requires forall k :: |acc| < k <= |acc + Chain(parts)| ==> !IsFileIn(nodes, (acc + Chain(parts))[..k])
    requires parts != [] && parts[0] != "." && parts[0] != ""
    ensures var acc' := acc + [parts[0]]; var n := Step(nodes, acc');
      WellFormed(n) && IsDirIn(n, acc') && AllPlain(acc') && AllPlain(Chain(parts[1..])) &&
      (forall k :: |acc'| < k <= |acc' + Chain(parts[1..])| ==> !IsFileIn(n, (acc' + Chain(parts[1..]))[..k])) &&
      acc' + Chain(parts[1..]) == acc + Chain(parts)
  {
    var x := parts[0];
    var tail := Chain(parts[1..]);
    ChainHead(parts);
    assert acc + Chain(parts) == acc + ([x] + tail);
    StepMakesDir(nodes, acc, x, tail);
    var n := Step(nodes, acc + [x]);
    StepAdds(nodes, acc + [x]);
    NoFileCons(nodes, n, acc, x, tail);
    AppendAssoc(acc, [x], tail);
  }

  /** The step's directory: its parent is `acc` and no file takes its place. */
  lemma StepMakesDir(nodes: map<Path, Node>, acc: seq<string>, x: string, tail: seq<string>)
    requires forall k :: |acc| < k <= |acc + ([x] + tail)| ==> !IsFileIn(nodes, (acc + ([x] + tail))[..k])
    ensures Parent(acc + [x]) == acc && !IsFileIn(nodes, acc + [x])
  {
    assert (acc + ([x] + tail))[..|acc| + 1] == acc + [x];
  }

  /**
   * When no directory of the chain is taken by a file, `ensure_dir` leaves the
   * whole chain in place as directories, so the file's directory exists.
   */
  lemma EnsureDirBuildsChain(nodes: map<Path, Node>, path: string)
    requires WellFormed(nodes) && NoUpLevel(DirParts(path))
    requires forall k :: 0 < k <= |Chain(DirParts(path))| ==> !IsFileIn(nodes, Chain(DirParts(path))[..k])
    ensures WellFormed(EnsureDirSpec(nodes, path))
    ensures IsDirIn(EnsureDirSpec(nodes, path), Chain(DirParts(path)))
  {
    var parts := Split(path, "/");
    forall k | 0 <= k < |DirParts(path)| ensures '/' !in DirParts(path)[k] {
      NotContainedSingle(parts[k], '/');
    }
    ChainPlain(DirParts(path));
    assert [] + Chain(DirParts(path)) == Chain(DirParts(path));
    EnsureLoopBuildsChain(nodes, DirParts(path), []);
  }

  /** A sanitised name has no `..` component, so neither has the path `ensure_dir` walks. */
  lemma {:induction false} SplitNoDotDot(s: string)
    requires NoDotDot(s)
    ensures forall k :: 0 <= k < |Split(s, "/")| ==> Split(s, "/")[k] != ".."
    decreases |s|
  {
    SplitUnfold(s, "/");
    match Find(s, "/")
    case None =>
      assert s != ".." by {
        if |s| == 2 {
          assert !(s[0] == '.' && s[1] == '.');
        }
      }
    case Some(i) =>
      var t := s[i + 1..];
      forall j | 0 <= j < |t| - 1 ensures !(t[j] == '.' && t[j + 1] == '.') {
        assert t[j] == s[i + 1 + j] && t[j + 1] == s[i + 1 + j + 1];
      }
      SplitNoDotDot(t);
      assert s[..i] != ".." by {
        if i == 2 {
          assert !(s[0] == '.' && s[1] == '.');
        }
      }
  }

  lemma UploadPathNoUpLevel(fn: string)
    requires NoDotDot(fn)
    ensures NoUpLevel(DirParts(UploadDir + "/" + fn))
  {
    var s := UploadDir + "/" + fn;
    forall j | 0 <= j < |s| - 1 ensures !(s[j] == '.' && s[j + 1] == '.') {
      if j >= 2 {
        assert s[j] == fn[j - 2] && s[j + 1] == fn[j - 1];
      }
    }
    SplitNoDotDot(s);
  }

  /** The directories `ensure_dir` makes for an upload are proper prefixes of the sanitised path. */
  lemma UploadDirsArePrefixes(nodes: map<Path, Node>, fn: string)
    requires NoDotDot(fn)
    ensures forall q :: q in EnsureDirSpec(nodes, UploadDir + "/" + fn) && q !in nodes ==>
      IsChainPrefix(q, Chain(DirParts(UploadDir + "/" + fn)))
  {
    UploadPathNoUpLevel(fn);
    EnsureDirOnlyPrefixes(nodes, UploadDir + "/" + fn);
  }

  // ---- save_upload ----

  /** `UPLOAD_DIR`. */
  const UploadDir: string := "."

  datatype Outcome =
    /** `True`: a line holding the boundary was seen in state 1. */
    | Saved
    /** `False`. */
    | Refused
    /** `open(filename, 'wb')` raised; the exception leaves `save_upload` and the connection gets no answer. */
    | Raised

  /** The index of the first line holding the boundary, or the number of lines when none does. */
  function FirstBoundary(lines: seq<Bytes>, boundary: Bytes): (r: nat)
    ensures r <= |lines|
    ensures forall i :: 0 <= i < r ==> !Contains(lines[i], boundary)
    ensures r < |lines| ==> Contains(lines[r], boundary)
    decreases |lines|
  {
    if lines == [] || Contains(lines[0], boundary) then 0
    else 1 + FirstBoundary(lines[1..], boundary)
  }

  /**
   * State 1 from some line on: the open file `h`, holding `written`, gets
   * every line up to the first one with the boundary; the result is True only
   * when that line is there.
   */
  function Copy(lines: seq<Bytes>, boundary: Bytes, onOpen: map<Path, Node>, h: Path, written: Bytes): (Outcome, map<Path, Node>) {
    var r := FirstBoundary(lines, boundary);
    (if r < |lines| then Saved else Refused, onOpen[h := File(written + Concat(lines[..r]))])
  }

  /**
   * The `filename="` test of one state-0 line: None where `save_upload`
   * returns False, otherwise the new `filename` and the tree after `ensure_dir`.
   */
  function NameStep(line: Bytes, filename: Option<string>, nodes: map<Path, Node>): Option<(Option<string>, map<Path, Node>)> {
    if !Contains(line, FilenameMarker) then Some((filename, nodes))
    else match NamedFile(line)
      case None => None
      case Some(fn) =>
        if IsProtected(fn) then None
        else
          var name := UploadDir + "/" + fn;
          Some((Some(name), if '/' in fn then EnsureDirSpec(nodes, name) else nodes))
  }

  /** State 0 over the remaining lines, with the `filename` seen so far. */
  function Phase0(lines: seq<Bytes>, boundary: Bytes, filename: Option<string>, nodes: map<Path, Node>): (Outcome, map<Path, Node>)
    decreases |lines|
  {
    if lines == [] then (Refused, nodes)
    else match NameStep(lines[0], filename, nodes)
      case None => (Refused, nodes)
      case Some((name, n)) =>
        if lines[0] != CRLF then Phase0(lines[1..], boundary, name, n)
        else if name.None? then (Refused, n)
        else match OpenWriteResult(n, Resolve(name.value))
          case None => (Raised, n)
          case Some(onOpen) => Copy(lines[1..], boundary, onOpen, Resolve(name.value), [])
  }

  lemma CopyStep(lines: seq<Bytes>, boundary: Bytes, onOpen: map<Path, Node>, h: Path, written: Bytes)
    requires lines != [] && !Contains(lines[0], boundary)
    ensures Copy(lines, boundary, onOpen, h, written) == Copy(lines[1..], boundary, onOpen, h, written + lines[0])
  {
    var r := FirstBoundary(lines, boundary);
    assert lines[..r] == [lines[0]] + lines[1..][..r - 1];
    assert Concat(lines[..r]) == lines[0] + Concat(lines[1..][..r - 1]);
    assert written + lines[0] + Concat(lines[1..][..r - 1]) == written + (lines[0] + Concat(lines[1..][..r - 1]));
  }

  lemma LinesStep(input: Bytes, pos: nat)
    requires pos < |input|
    ensures LinesFrom(input, pos) == [LineAt(input, pos)] + LinesFrom(input, LineEnd(input, pos))
  {
  }

  /**
   * `save_upload(reader, boundary)`: the outcome and the tree are those of
   * state 0 run over the lines still to come.
   */
  method SaveUpload(conn: Connection, fs: FileSystem, boundary: Bytes) returns (outcome: Outcome)
    requires conn.Valid() && fs.Valid()
    modifies conn`pos, fs`nodes
    ensures conn.Valid() && fs.Valid()
    ensures (outcome, fs.nodes) == Phase0(LinesFrom(conn.input, old(conn.pos)), boundary, None, old(fs.nodes))
  {
    var state := 0;
    var filename: Option<string> := None;
    var f: Option<Path> := None;
    ghost var onOpen: map<Path, Node> := map[];
    ghost var written: Bytes := [];
    ghost var spec := Phase0(LinesFrom(conn.input, conn.pos), boundary, None, fs.nodes);
    while true
      invariant conn.Valid() && fs.Valid()
      invariant state == 0 || state == 1
      invariant state == 0 ==> Phase0(LinesFrom(conn.input, conn.pos), boundary, filename, fs.nodes) == spec
      invariant state == 1 ==> f.Some? && IsFileIn(fs.nodes, f.value) && fs.nodes == onOpen[f.value := File(written)]
      invariant state == 1 ==> Copy(LinesFrom(conn.input, conn.pos), boundary, onOpen, f.value, written) == spec
      decreases |conn.input| - conn.pos
    {
      ghost var before := conn.pos;
      var line := conn.ReadLine();
      if line == [] {
        break;
      }
      LinesStep(conn.input, before);
      ghost var lines := LinesFrom(conn.input, before);
      assert lines[0] == line && lines[1..] == LinesFrom(conn.input, conn.pos);
      if state == 0 {
        if Contains(line, FilenameMarker) {
          var named := NamedFile(line);
          if named.None? {
            return Refused;
          }
          var fn := named.value;
          if IsProtected(fn) {
            return Refused;
          }
          filename := Some(UploadDir + "/" + fn);
          if '/' in fn {
            EnsureDir(fs, filename.value);
          }
        }
        if line == CRLF {
          if filename.None? {
            return Refused;
          }
          state := 1;
          f := fs.OpenWrite(filename.value);
          if f.None? {
            return Raised;
          }
          onOpen := fs.nodes;
          written := [];
        }
      } else {
        if Contains(line, boundary) {
          assert FirstBoundary(lines, boundary) == 0;
          assert written + Concat(lines[..0]) == written;
          return Saved;
        }
        CopyStep(lines, boundary, onOpen, f.value, written);
        fs.Write(f.value, line);
        UpdateTwice(onOpen, f.value, File(written), File(written + line));
        written := written + line;
      }
    }
    if state == 1 {
      assert written + Concat([]) == written;
    }
    return Refused;
  }

  // ---- What save_upload promises ----

  /** A header line that neither names a file nor ends the part header. */
  predicate Skipped(line: Bytes) {
    !Contains(line, FilenameMarker) && line != CRLF
  }

  predicate AllSkipped(lines: seq<Bytes>) {
    forall i :: 0 <= i < |lines| ==> Skipped(lines[i])
  }

  lemma ShortNoMarker(line: Bytes)
    requires |line| < |FilenameMarker|
    ensures !Contains(line, FilenameMarker)
  {
  }

  lemma {:induction false} SkipLines(pre: seq<Bytes>, rest: seq<Bytes>, boundary: Bytes, filename: Option<string>, nodes: map<Path, Node>)
    requires AllSkipped(pre)
    ensures Phase0(pre + rest, boundary, filename, nodes) == Phase0(rest, boundary, filename, nodes)
    decreases |pre|
  {
    if pre != [] {
      assert (pre + rest)[0] == pre[0] && (pre + rest)[1..] == pre[1..] + rest;
      assert Skipped(pre[0]);
      assert NameStep(pre[0], filename, nodes) == Some((filename, nodes));
      assert AllSkipped(pre[1..]) by {
        forall i | 0 <= i < |pre[1..]| ensures Skipped(pre[1..][i]) {
          assert pre[1..][i] == pre[i + 1];
        }
      }
      assert pre[0] != CRLF;
      assert Phase0(pre + rest, boundary, filename, nodes) == Phase0(pre[1..] + rest, boundary, filename, nodes);
      SkipLines(pre[1..], rest, boundary, filename, nodes);
    } else {
      assert pre + rest == rest;
    }
  }

  /** A blank line before any `filename="` line: False, and nothing on the filesystem changes. */
  lemma BlankBeforeName(pre: seq<Bytes>, rest: seq<Bytes>, boundary: Bytes, nodes: map<Path, Node>)
    requires AllSkipped(pre)
    ensures Phase0(pre + [CRLF] + rest, boundary, None, nodes) == (Refused, nodes)
  {
    assert pre + [CRLF] + rest == pre + ([CRLF] + rest);
    SkipLines(pre, [CRLF] + rest, boundary, None, nodes);
    ShortNoMarker(CRLF);
  }

  /** A bare locked name: False, and nothing on the filesystem changes. */
  lemma LockedRefused(pre: seq<Bytes>, line: Bytes, rest: seq<Bytes>, boundary: Bytes, nodes: map<Path, Node>)
    requires AllSkipped(pre)
    requires Contains(line, FilenameMarker) && NamedFile(line).Some? && NamedFile(line).value in LockedFiles
    ensures Phase0(pre + [line] + rest, boundary, None, nodes) == (Refused, nodes)
  {
    assert pre + [line] + rest == pre + ([line] + rest);
    SkipLines(pre, [line] + rest, boundary, None, nodes);
    ProtectedIffLocked(NamedFile(line).value);
  }

  lemma AddsOnlyDirsTrans(a: map<Path, Node>, b: map<Path, Node>, c: map<Path, Node>)
    requires AddsOnlyDirs(a, b) && AddsOnlyDirs(b, c)
    ensures AddsOnlyDirs(a, c)
  {
  }

  /**
   * Without a blank line the part header never ends: the result is False, no
   * file is opened, and at most the directories of named paths were made.
   */
  lemma {:induction false} NoBlankNoFile(lines: seq<Bytes>, boundary: Bytes, filename: Option<string>, nodes: map<Path, Node>)
    requires forall i :: 0 <= i < |lines| ==> lines[i] != CRLF
    ensures Phase0(lines, boundary, filename, nodes).0 == Refused
    ensures AddsOnlyDirs(nodes, Phase0(lines, boundary, filename, nodes).1)
    decreases |lines|
  {
    if lines != [] {
      match NameStep(lines[0], filename, nodes)
      case None =>
      case Some((name, n)) =>
        assert AddsOnlyDirs(nodes, n) by {
          if Contains(lines[0], FilenameMarker) && NamedFile(lines[0]).Some? {
            EnsureDirAddsOnlyDirs(nodes, UploadDir + "/" + NamedFile(lines[0]).value);
          }
        }
        NoBlankNoFile(lines[1..], boundary, name, n);
        AddsOnlyDirsTrans(nodes, n, Phase0(lines[1..], boundary, name, n).1);
    }
  }

  /**
   * `lines[k]` is the first blank line, a file `h` was opened there, and `h`
   * now holds exactly the lines after it and before the first one with the boundary, which exists.
   */
  predicate SavedAt(lines: seq<Bytes>, boundary: Bytes, k: nat, h: Path, nodes: map<Path, Node>) {
    k < |lines| && lines[k] == CRLF && (forall i :: 0 <= i < k ==> lines[i] != CRLF) &&
    var r := FirstBoundary(lines[k + 1..], boundary);
    k + 1 + r < |lines| && h in nodes && nodes[h] == File(Concat(lines[k + 1..k + 1 + r]))
  }

  lemma SavedAtShift(line: Bytes, lines: seq<Bytes>, boundary: Bytes, k: nat, h: Path, nodes: map<Path, Node>)
    requires line != CRLF && SavedAt(lines, boundary, k, h, nodes)
    ensures SavedAt([line] + lines, boundary, k + 1, h, nodes)
  {
    var all := [line] + lines;
    assert all[k + 2..] == lines[k + 1..];
    var r := FirstBoundary(lines[k + 1..], boundary);
    assert all[k + 2..k + 2 + r] == lines[k + 1..k + 1 + r];
    forall i | 0 <= i < k + 1 ensures all[i] != CRLF {
      if i > 0 {
        assert all[i] == lines[i - 1];
      }
    }
  }

  /** The `filename` a state-0 line leaves in force, for a line that does not end `save_upload`. */
  function NameOf(line: Bytes, filename: Option<string>): Option<string> {
    if Contains(line, FilenameMarker) && NamedFile(line).Some? then Some(UploadDir + "/" + NamedFile(line).value)
    else filename
  }

  /** The `filename` in force after the state-0 lines `lines`, starting from `filename`. */
  function NameAfter(lines: seq<Bytes>, filename: Option<string>): Option<string>
    decreases |lines|
  {
    if lines == [] then filename else NameAfter(lines[1..], NameOf(lines[0], filename))
  }

  /** The file `SavedAt` finds is the one named by the `filename` in force at the blank line `lines[k]`. */
  predicate SavedAsNamed(lines: seq<Bytes>, boundary: Bytes, k: nat, filename: Option<string>, nodes: map<Path, Node>) {
    k <= |lines| && NameAfter(lines[..k], filename).Some? &&
    SavedAt(lines, boundary, k, Resolve(NameAfter(lines[..k], filename).value), nodes)
  }

  /** One more state-0 line in front: its name is in force for the lines after it. */
  lemma NameAfterCons(line: Bytes, lines: seq<Bytes>, k: nat, filename: Option<string>)
    requires k <= |lines|
    ensures NameAfter(([line] + lines)[..k + 1], filename) == NameAfter(lines[..k], NameOf(line, filename))
  {
    var all := [line] + lines;
    assert all[..k + 1][1..] == lines[..k] && all[..k + 1][0] == line;
  }

  lemma SavedAsNamedShift(line: Bytes, lines: seq<Bytes>, boundary: Bytes, k: nat, filename: Option<string>, nodes: map<Path, Node>)
    requires line != CRLF && SavedAsNamed(lines, boundary, k, NameOf(line, filename), nodes)
    ensures SavedAsNamed([line] + lines, boundary, k + 1, filename, nodes)
  {
    NameAfterCons(line, lines, k, filename);
    SavedAtShift(line, lines, boundary, k, Resolve(NameAfter(lines[..k], NameOf(line, filename)).value), nodes);
  }

  /**
   * True only after a blank line ended the part header and a later line held
   * the boundary; the file named by the last `filename="` line before the
   * blank line holds what came between.
   */
  lemma {:induction false} SavedOnlyAtBoundary(lines: seq<Bytes>, boundary: Bytes, filename: Option<string>, nodes: map<Path, Node>)
    requires Phase0(lines, boundary, filename, nodes).0 == Saved
    ensures exists k: nat :: SavedAsNamed(lines, boundary, k, filename, Phase0(lines, boundary, filename, nodes).1)
    decreases |lines|
  {
    match NameStep(lines[0], filename, nodes)
    case None =>
    case Some((name, n)) =>
      assert name == NameOf(lines[0], filename);
      if lines[0] != CRLF {
        SavedOnlyAtBoundary(lines[1..], boundary, name, n);
        var k: nat :| SavedAsNamed(lines[1..], boundary, k, name, Phase0(lines[1..], boundary, name, n).1);
        assert [lines[0]] + lines[1..] == lines;
        SavedAsNamedShift(lines[0], lines[1..], boundary, k, filename, Phase0(lines[1..], boundary, name, n).1);
      } else {
        var h := Resolve(name.value);
        var r := FirstBoundary(lines[1..], boundary);
        assert lines[1..][..r] == lines[1..1 + r];
        assert [] + Concat(lines[1..][..r]) == Concat(lines[1..1 + r]);
        ShortNoMarker(CRLF);
        assert NameAfter(lines[..0], filename) == filename == name;
        assert SavedAt(lines, boundary, 0, h, Phase0(lines, boundary, filename, nodes).1);
        assert SavedAsNamed(lines, boundary, 0, filename, Phase0(lines, boundary, filename, nodes).1);
      }
  }

  lemma CopyFound(content: seq<Bytes>, last: Bytes, rest: seq<Bytes>, boundary: Bytes, onOpen: map<Path, Node>, h: Path)
    requires forall i :: 0 <= i < |content| ==> !Contains(content[i], boundary)
    requires Contains(last, boundary)
    ensures Copy(content + [last] + rest, boundary, onOpen, h, []) == (Saved, onOpen[h := File(Concat(content))])
  {
    var lines := content + [last] + rest;
    assert lines[|content|] == last;
    assert forall i :: 0 <= i < |content| ==> lines[i] == content[i];
    assert FirstBoundary(lines, boundary) == |content|;
    assert lines[..|content|] == content;
    assert [] + Concat(content) == Concat(content);
  }

  /** Regrouping the six pieces of an upload's lines. */
  lemma Regroup<T>(a: seq<T>, b: seq<T>, c: seq<T>, d: seq<T>, e: seq<T>, f: seq<T>)
    ensures a + b + c + d + e + f == a + (b + (c + (d + e + f)))
  {
    AppendAssoc(a + b + c, d + e, f);
    AppendAssoc(a + b, c, d + e + f);
    AppendAssoc(a, b, c + (d + e + f));
  }

  /** A `filename="` line naming a plain, unlocked `fn` sets `filename` to `./fn` and touches nothing. */
  lemma PlainNameLine(head: Bytes, fn: string, filename: Option<string>, nodes: map<Path, Node>)
    requires Contains(head, FilenameMarker) && NamedFile(head) == Some(fn)
    requires '/' !in fn && fn !in LockedFiles
    ensures head != CRLF
    ensures NameStep(head, filename, nodes) == Some((Some(UploadDir + "/" + fn), nodes))
  {
    if head == CRLF {
      ShortNoMarker(head);
    }
    ProtectedIffLocked(fn);
  }

  /** The blank line with a plain name set: the file is opened empty at the root and state 1 begins. */
  lemma OpenAtBlank(tail: seq<Bytes>, fn: string, boundary: Bytes, nodes: map<Path, Node>)
    requires fn != "" && fn != "." && NoDotDot(fn) && '/' !in fn
    requires [fn] !in nodes || nodes[[fn]].File?
    ensures Phase0([CRLF] + tail, boundary, Some(UploadDir + "/" + fn), nodes) == Copy(tail, boundary, nodes[[fn] := File([])], [fn], [])
  {
    assert fn != ".." by {
      if |fn| == 2 {
        assert !(fn[0] == '.' && fn[1] == '.');
      }
    }
    ShortNoMarker(CRLF);
    ResolveName(fn);
    assert UploadDir + "/" + fn == "./" + fn;
    assert ([CRLF] + tail)[0] == CRLF;
    assert NameStep(CRLF, Some(UploadDir + "/" + fn), nodes) == Some((Some(UploadDir + "/" + fn), nodes));
    assert Parent([fn]) == [];
    assert OpenWriteResult(nodes, [fn]) == Some(nodes[[fn] := File([])]);
    assert ([CRLF] + tail)[1..] == tail;
  }

  /**
   * The whole round trip for a plain name: a `filename="` line naming `fn`,
   * more header lines, the blank line, the content lines and a line with the
   * boundary give True and the file `fn` at the root holding exactly the content lines.
   */
  lemma UploadRoundTrip(head: Bytes, fn: string, pre: seq<Bytes>, content: seq<Bytes>, last: Bytes, rest: seq<Bytes>, boundary: Bytes, nodes: map<Path, Node>)
    requires Contains(head, FilenameMarker) && NamedFile(head) == Some(fn)
    requires fn != "" && fn != "." && '/' !in fn && fn !in LockedFiles
    requires [fn] !in nodes || nodes[[fn]].File?
    requires AllSkipped(pre)
    requires forall i :: 0 <= i < |content| ==> !Contains(content[i], boundary)
    requires Contains(last, boundary)
    ensures Phase0([head] + pre + [CRLF] + content + [last] + rest, boundary, None, nodes) == (Saved, nodes[[fn] := File(Concat(content))])
  {
    var tail := content + [last] + rest;
    var lines := [head] + pre + [CRLF] + content + [last] + rest;
    var name := UploadDir + "/" + fn;
    Regroup([head], pre, [CRLF], content, [last], rest);
    PlainNameLine(head, fn, None, nodes);
    assert Phase0(lines, boundary, None, nodes) == Phase0(pre + ([CRLF] + tail), boundary, Some(name), nodes);
    SkipLines(pre, [CRLF] + tail, boundary, Some(name), nodes);
    OpenAtBlank(tail, fn, boundary, nodes);
    CopyFound(content, last, rest, boundary, nodes[[fn] := File([])], [fn]);
    UpdateTwice(nodes, [fn], File([]), File(Concat(content)));
  }

  /** Header lines that neither name a file nor end the part header leave the name in force alone. */
  lemma {:induction false} NameAfterSkipped(pre: seq<Bytes>, filename: Option<string>)
    requires AllSkipped(pre)
    ensures NameAfter(pre, filename) == filename
    decreases |pre|
  {
    if pre != [] {
      assert Skipped(pre[0]);
      assert AllSkipped(pre[1..]) by {
        forall i | 0 <= i < |pre[1..]| ensures Skipped(pre[1..][i]) {
          assert pre[1..][i] == pre[i + 1];
        }
      }
      NameAfterSkipped(pre[1..], filename);
    }
  }

  /** The lines of an upload, cut at its blank line. */
  lemma UploadLines(head: Bytes, pre: seq<Bytes>, content: seq<Bytes>, last: Bytes, rest: seq<Bytes>)
    ensures [head] + pre + [CRLF] + content + [last] + rest == ([head] + pre) + [CRLF] + (content + [last] + rest)
  {
    Regroup([head], pre, [CRLF], content, [last], rest);
    AppendAssoc([head], pre, [CRLF] + (content + [last] + rest));
    AppendAssoc([head] + pre, [CRLF], content + [last] + rest);
  }

  /** The part header before the blank line: no blank line in it, and its `filename="` line's name in force after it. */
  lemma HeaderNames(head: Bytes, fn: string, pre: seq<Bytes>)
    requires Contains(head, FilenameMarker) && NamedFile(head) == Some(fn)
    requires AllSkipped(pre)
    ensures forall i :: 0 <= i < |[head] + pre| ==> ([head] + pre)[i] != CRLF
    ensures NameAfter([head] + pre, None) == Some(UploadDir + "/" + fn)
  {
    if head == CRLF {
      ShortNoMarker(head);
    }
    forall i | 0 < i < |[head] + pre| ensures ([head] + pre)[i] != CRLF {
      assert ([head] + pre)[i] == pre[i - 1] && Skipped(pre[i - 1]);
    }
    assert ([head] + pre)[1..] == pre;
    NameAfterSkipped(pre, NameOf(head, None));
  }

  /** The first blank line of `hp + [CRLF] + tail` when `hp` holds none: the one after `hp`. */
  lemma FirstBlank(hp: seq<Bytes>, tail: seq<Bytes>, k: nat)
    requires forall i :: 0 <= i < |hp| ==> hp[i] != CRLF
    requires k < |hp + [CRLF] + tail| && (hp + [CRLF] + tail)[k] == CRLF
    requires forall i :: 0 <= i < k ==> (hp + [CRLF] + tail)[i] != CRLF
    ensures k == |hp| && (hp + [CRLF] + tail)[..k] == hp && (hp + [CRLF] + tail)[k + 1..] == tail
  {
    var lines := hp + [CRLF] + tail;
    assert lines[|hp|] == CRLF;
  }

  /** The content lines are those before the boundary line. */
  lemma ContentBeforeBoundary(content: seq<Bytes>, last: Bytes, rest: seq<Bytes>, boundary: Bytes)
    requires forall i :: 0 <= i < |content| ==> !Contains(content[i], boundary)
    requires Contains(last, boundary)
    ensures FirstBoundary(content + [last] + rest, boundary) == |content|
    ensures (content + [last] + rest)[..|content|] == content
  {
    var lines := content + [last] + rest;
    assert lines[|content|] == last;
    assert forall i :: 0 <= i < |content| ==> lines[i] == content[i];
  }

  /** The file `SavedAt` finds after the blank line that follows `hp`: the lines of `tail` before the boundary. */
  lemma SavedAfterBlank(hp: seq<Bytes>, tail: seq<Bytes>, boundary: Bytes, h: Path, nodes: map<Path, Node>)
    requires SavedAt(hp + [CRLF] + tail, boundary, |hp|, h, nodes)
    ensures h in nodes && nodes[h] == File(Concat(tail[..FirstBoundary(tail, boundary)]))
  {
    var lines := hp + [CRLF] + tail;
    assert lines[|hp| + 1..] == tail;
    var r := FirstBoundary(tail, boundary);
    assert lines[|hp| + 1..|hp| + 1 + r] == tail[..r];
  }

  /**
   * Any name, nested or not: once an upload whose part header names `fn`
   * succeeds, the file at `./fn` holds exactly the lines between the blank
   * line and the first line with the boundary.
   */
  lemma UploadSavedAsNamed(head: Bytes, fn: string, pre: seq<Bytes>, content: seq<Bytes>, last: Bytes, rest: seq<Bytes>, boundary: Bytes, nodes: map<Path, Node>)
    requires Contains(head, FilenameMarker) && NamedFile(head) == Some(fn)
    requires AllSkipped(pre)
    requires forall i :: 0 <= i < |content| ==> !Contains(content[i], boundary)
    requires Contains(last, boundary)
    requires Phase0([head] + pre + [CRLF] + content + [last] + rest, boundary, None, nodes).0 == Saved
    ensures var after := Phase0([head] + pre + [CRLF] + content + [last] + rest, boundary, None, nodes).1;
      Resolve(UploadDir + "/" + fn) in after && after[Resolve(UploadDir + "/" + fn)] == File(Concat(content))
  {
    var hp := [head] + pre;
    var tail := content + [last] + rest;
    UploadLines(head, pre, content, last, rest);
    var lines := hp + [CRLF] + tail;
    var after := Phase0(lines, boundary, None, nodes).1;
    HeaderNames(head, fn, pre);
    SavedOnlyAtBoundary(lines, boundary, None, nodes);
    var k: nat :| SavedAsNamed(lines, boundary, k, None, after);
    FirstBlank(hp, tail, k);
    var h := Resolve(UploadDir + "/" + fn);
    assert SavedAt(lines, boundary, |hp|, h, after);
    SavedAfterBlank(hp, tail, boundary, h, after);
    ContentBeforeBoundary(content, last, rest, boundary);
  }
}
