/**
 * The flash filesystem the server works on, as the `os` calls it makes see
 * it: `stat`, `listdir`, `mkdir`, `remove`, `rmdir`, `statvfs` and `open` for
 * reading and writing. A path string is resolved by splitting it at `/`,
 * skipping empty and `.` components and letting `..` go up one level; the
 * root is the working directory. A directory can be removed only when it is
 * empty, and a file can be created only inside an existing directory.
 */
module Fs {
  import opened Base
  import opened Text

  datatype Node = File(data: Bytes) | Dir

  /** A resolved path: its components from the root; the root itself is `[]`. */
  type Path = seq<string>

  /** The file-type bits `stat` reports for a directory and for a regular file. */
  const S_IFDIR: nat := 0x4000
  const S_IFREG: nat := 0x8000

  /** The two fields of `os.stat` the server reads: `st[0]` and `st[6]`. */
  datatype StatResult = StatResult(mode: nat, size: nat)

  /** `(mode & 0o170000) == 0o040000`: the file-type field of the mode says "directory". */
  predicate IsDirMode(mode: nat) {
    mode / 0x1000 % 0x10 == 4
  }

  /** The dir-bit test reads exactly the file-type field: permission bits below it do not matter. */
  lemma DirModeBits(perm: nat)
    requires perm < 0x1000
    ensures IsDirMode(S_IFDIR + perm) && !IsDirMode(S_IFREG + perm)
  {
    assert (S_IFDIR + perm) / 0x1000 == 4;
    assert (S_IFREG + perm) / 0x1000 == 8;
  }

  function Normalize(parts: seq<string>, acc: Path): Path
    decreases |parts|
  {
    if parts == [] then acc
    else if parts[0] == "" || parts[0] == "." then Normalize(parts[1..], acc)
    else if parts[0] == ".." then Normalize(parts[1..], if acc == [] then [] else acc[..|acc| - 1])
    else Normalize(parts[1..], acc + [parts[0]])
  }

  /** The path a string names. */
  function Resolve(p: string): Path {
    Normalize(Split(p, "/"), [])
  }

  /** A single component written bare, after `/` or after `./` names the same entry at the root. */
  lemma ResolveName(name: string)
    requires name != "" && name != "." && name != ".." && '/' !in name
    ensures Resolve(name) == [name]
    ensures Resolve("/" + name) == [name]
    ensures Resolve("./" + name) == [name]
  {
    SplitNone(name, '/');
    assert Normalize([name], []) == [name];
    assert "/" + name == [] + ['/'] + name;
    SplitCons([], name, '/');
    assert Normalize([[]] + [name], []) == Normalize([name], []);
    assert "./" + name == "." + ['/'] + name;
    SplitCons(".", name, '/');
    assert Normalize(["."] + [name], []) == Normalize([name], []);
  }

  function Parent(p: Path): Path
    requires p != []
  {
    p[..|p| - 1]
  }

  predicate IsDirIn(nodes: map<Path, Node>, p: Path) {
    p == [] || (p in nodes && nodes[p].Dir?)
  }

  predicate IsFileIn(nodes: map<Path, Node>, p: Path) {
    p != [] && p in nodes && nodes[p].File?
  }

  /** A well-formed tree: the root is implicit, and every entry sits in a directory. */
  predicate WellFormed(nodes: map<Path, Node>) {
    [] !in nodes && forall p {:trigger Parent(p)} :: p in nodes ==> IsDirIn(nodes, Parent(p))
  }

  /** The names directly inside `dir`. */
  function ChildNames(nodes: map<Path, Node>, dir: Path): set<string> {
    set q | q in nodes && |q| == |dir| + 1 && q[..|dir|] == dir :: q[|dir|]
  }

  /** `os.stat(p)`: None where it raises because nothing is there. */
  function StatOf(nodes: map<Path, Node>, p: Path): (r: Option<StatResult>)
    ensures r.Some? <==> p == [] || p in nodes
    ensures r.Some? ==> (IsDirMode(r.value.mode) <==> IsDirIn(nodes, p))
    ensures r.Some? && IsFileIn(nodes, p) ==> r.value.size == |nodes[p].data|
  {
    if p == [] then Some(StatResult(S_IFDIR, 0))
    else if p !in nodes then None
    else match nodes[p]
      case Dir => Some(StatResult(S_IFDIR, 0))
      case File(data) => Some(StatResult(S_IFREG, |data|))
  }

  /** `os.mkdir(p)`: None where it raises (the root, something already there, no parent directory). */
  function MkdirResult(nodes: map<Path, Node>, p: Path): Option<map<Path, Node>> {
    if p == [] || p in nodes || !IsDirIn(nodes, Parent(p)) then None else Some(nodes[p := Dir])
  }

  /** `os.remove(p)` and `os.rmdir(p)`: a file or an empty directory goes; anything else raises. */
  function RemoveResult(nodes: map<Path, Node>, p: Path): Option<map<Path, Node>> {
    if p in nodes && (nodes[p].File? || ChildNames(nodes, p) == {}) then Some(nodes - {p}) else None
  }

  /** `open(p, 'w')`: an empty file in an existing directory; raises on a directory or a missing parent. */
  function OpenWriteResult(nodes: map<Path, Node>, p: Path): Option<map<Path, Node>> {
    if p == [] || IsDirIn(nodes, p) || !IsDirIn(nodes, Parent(p)) then None else Some(nodes[p := File([])])
  }

  /** `open(p).read()` as bytes: None for a directory or nothing at all. */
  function ReadResult(nodes: map<Path, Node>, p: Path): Option<Bytes> {
    if IsFileIn(nodes, p) then Some(nodes[p].data) else None
  }

  lemma MkdirWellFormed(nodes: map<Path, Node>, p: Path)
    requires WellFormed(nodes) && MkdirResult(nodes, p).Some?
    ensures WellFormed(MkdirResult(nodes, p).value)
    ensures MkdirResult(nodes, p).value.Keys == nodes.Keys + {p} && IsDirIn(MkdirResult(nodes, p).value, p)
  {
  }

  lemma OpenWriteWellFormed(nodes: map<Path, Node>, p: Path)
    requires WellFormed(nodes) && OpenWriteResult(nodes, p).Some?
    ensures WellFormed(OpenWriteResult(nodes, p).value)
    ensures ReadResult(OpenWriteResult(nodes, p).value, p) == Some([])
  {
    var n := OpenWriteResult(nodes, p).value;
    forall q | q in n ensures IsDirIn(n, Parent(q)) {
      if q != p {
        assert IsDirIn(nodes, Parent(q));
        assert Parent(q) != p;
      }
    }
  }

  /** Removing never leaves an entry without its directory: only a file or an empty directory goes. */
  lemma RemoveWellFormed(nodes: map<Path, Node>, p: Path)
    requires WellFormed(nodes) && RemoveResult(nodes, p).Some?
    ensures WellFormed(RemoveResult(nodes, p).value)
    ensures StatOf(RemoveResult(nodes, p).value, p).None?
  {
    var n := RemoveResult(nodes, p).value;
    forall q | q in n ensures IsDirIn(n, Parent(q)) {
      assert IsDirIn(nodes, Parent(q));
      if Parent(q) == p {
        assert q[..|p|] == p;
        assert q[|p|] in ChildNames(nodes, p);
      }
    }
  }

  /** Appending to an open file keeps the tree well formed. */
  lemma WriteWellFormed(nodes: map<Path, Node>, p: Path, data: Bytes)
    requires WellFormed(nodes) && IsFileIn(nodes, p)
    ensures WellFormed(nodes[p := File(data)])
  {
  }

  /** Distinct entries: what `os.listdir` returns has no name twice. */
  predicate Distinct<T(==)>(s: seq<T>) {
    forall i, j :: 0 <= i < j < |s| ==> s[i] != s[j]
  }

  /** The elements of a sequence. */
  function Elems<T>(s: seq<T>): (r: set<T>)
    ensures forall j :: 0 <= j < |s| ==> s[j] in r
    ensures forall y :: y in r ==> exists j :: 0 <= j < |s| && s[j] == y
  {
    if s == [] then {} else Elems(s[..|s| - 1]) + {s[|s| - 1]}
  }

  /** One step of listing a directory: a name moves from the names still to list to the names listed. */
  lemma ListStep<T>(s: seq<T>, rest: set<T>, all: set<T>, x: T)
    requires Distinct(s) && Elems(s) + rest == all && Elems(s) !! rest && x in rest
    ensures Distinct(s + [x]) && Elems(s + [x]) + (rest - {x}) == all && Elems(s + [x]) !! (rest - {x})
    ensures |rest - {x}| < |rest|
  {
    assert (s + [x])[..|s|] == s;
    assert Elems(s + [x]) == Elems(s) + {x};
  }

  /** `names` is a listing of `dir`: every child once, in some order. */
  predicate IsListing(nodes: map<Path, Node>, dir: Path, names: seq<string>) {
    Distinct(names) && Elems(names) == ChildNames(nodes, dir)
  }

  class FileSystem {
    var nodes: map<Path, Node>
    /** `os.statvfs('/')` as (block size, total blocks, free blocks), or None where it raises. */
    var volume: Option<(nat, nat, nat)>

    ghost predicate Valid()
      reads this
    {
      WellFormed(nodes)
    }

    constructor (initial: map<Path, Node>, vol: Option<(nat, nat, nat)>)
      requires WellFormed(initial)
      ensures Valid() && nodes == initial && volume == vol
    {
      nodes := initial;
      volume := vol;
    }

    /** `os.stat(p)`. */
    method Stat(p: string) returns (r: Option<StatResult>)
      ensures r == StatOf(nodes, Resolve(p))
    {
      r := StatOf(nodes, Resolve(p));
    }

    /** `os.listdir(p)`: the names in a directory, each once, in an order the filesystem picks. */
    method ListDir(p: string) returns (r: Option<seq<string>>)
      ensures r.Some? <==> IsDirIn(nodes, Resolve(p))
      ensures r.Some? ==> IsListing(nodes, Resolve(p), r.value)
    {
      var dir := Resolve(p);
      if !IsDirIn(nodes, dir) {
        return None;
      }
      var all := ChildNames(nodes, dir);
      var rest := all;
      var names: seq<string> := [];
      while rest != {}
        invariant Distinct(names)
        invariant Elems(names) + rest == all
        invariant Elems(names) !! rest
        decreases |rest|
      {
        var x :| x in rest;
        ListStep(names, rest, all, x);
        names := names + [x];
        rest := rest - {x};
      }
      return Some(names);
    }

    /** `os.mkdir(p)`; `ok` is false where it raises. */
    method Mkdir(p: string) returns (ok: bool)
      requires Valid()
      modifies this`nodes
      ensures Valid()
      ensures ok == MkdirResult(old(nodes), Resolve(p)).Some?
      ensures nodes == if ok then MkdirResult(old(nodes), Resolve(p)).value else old(nodes)
    {
      var r := MkdirResult(nodes, Resolve(p));
      if r.Some? {
        MkdirWellFormed(nodes, Resolve(p));
        nodes := r.value;
      }
      ok := r.Some?;
    }

    /** `os.remove(p)` or `os.rmdir(p)`; `ok` is false where it raises. */
    method Remove(p: string) returns (ok: bool)
      requires Valid()
      modifies this`nodes
      ensures Valid()
      ensures ok == RemoveResult(old(nodes), Resolve(p)).Some?
      ensures nodes == if ok then RemoveResult(old(nodes), Resolve(p)).value else old(nodes)
    {
      var r := RemoveResult(nodes, Resolve(p));
      if r.Some? {
        RemoveWellFormed(nodes, Resolve(p));
        nodes := r.value;
      }
      ok := r.Some?;
    }

    /** `open(p, 'w')` or `open(p, 'wb')`: the handle is the path of the emptied file, None where it raises. */
    method OpenWrite(p: string) returns (h: Option<Path>)
      requires Valid()
      modifies this`nodes
      ensures Valid()
      ensures h.Some? <==> OpenWriteResult(old(nodes), Resolve(p)).Some?
      ensures h.Some? ==> h.value == Resolve(p) && nodes == OpenWriteResult(old(nodes), Resolve(p)).value
      ensures h.None? ==> nodes == old(nodes)
    {
      var r := OpenWriteResult(nodes, Resolve(p));
      if r.Some? {
        OpenWriteWellFormed(nodes, Resolve(p));
        nodes := r.value;
        h := Some(Resolve(p));
      } else {
        h := None;
      }
    }

    /** `f.write(data)` on an open file. */
    method Write(h: Path, data: Bytes)
      requires Valid() && IsFileIn(nodes, h)
      modifies this`nodes
      ensures Valid()
      ensures nodes == old(nodes)[h := File(old(nodes)[h].data + data)]
    {
      WriteWellFormed(nodes, h, nodes[h].data + data);
      nodes := nodes[h := File(nodes[h].data + data)];
    }

    /** `open(p, 'rb').read()`. */
    method ReadAll(p: string) returns (r: Option<Bytes>)
      ensures r == ReadResult(nodes, Resolve(p))
    {
      r := ReadResult(nodes, Resolve(p));
    }

    /** `os.statvfs('/')`. */
    method Statvfs() returns (r: Option<(nat, nat, nat)>)
      ensures r == volume
    {
      r := volume;
    }
  }
}
