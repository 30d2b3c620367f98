/**
 * The handful of Python `str`/`bytes` operations the server is written with:
 * `find`, `in`, `split(sep)`, `split()`, `strip()`, `rstrip(c)`, `replace`,
 * `startswith` and `endswith`, each with the property it is relied upon for.
 * The whitespace set is MicroPython's: space, tab, LF, CR, VT and FF.
 */
module Text {
  import opened Base

  /** `sub` occurs in `s` starting at index `i`. */
  predicate OccursAt<T(==)>(s: seq<T>, sub: seq<T>, i: int) {
    0 <= i && i + |sub| <= |s| && s[i..i + |sub|] == sub
  }

  /** `sub in s`. */
  predicate Contains<T(==)>(s: seq<T>, sub: seq<T>) {
    exists i :: 0 <= i <= |s| && OccursAt(s, sub, i)
  }

  /** `s.startswith(p)`. */
  predicate StartsWith<T(==)>(s: seq<T>, p: seq<T>) {
    |p| <= |s| && s[..|p|] == p
  }

  /** `s.endswith(x)`. */
  predicate EndsWith<T(==)>(s: seq<T>, x: seq<T>) {
    |x| <= |s| && s[|s| - |x|..] == x
  }

  lemma OccursAtTail<T>(s: seq<T>, sub: seq<T>, j: int)
    requires |s| > 0 && 1 <= j
    ensures OccursAt(s, sub, j) <==> OccursAt(s[1..], sub, j - 1)
  {
    if j + |sub| <= |s| {
      var a, b := s[j..j + |sub|], s[1..][j - 1..j - 1 + |sub|];
      assert |a| == |b| && forall k :: 0 <= k < |a| ==> a[k] == b[k];
    }
  }

  /** `s.find(sub)`: the lowest index at which `sub` occurs, None for Python's -1. */
  function Find<T(==)>(s: seq<T>, sub: seq<T>): (r: Option<nat>)
    ensures r.Some? ==> OccursAt(s, sub, r.value)
    ensures r.Some? ==> forall j :: 0 <= j < r.value ==> !OccursAt(s, sub, j)
    ensures r.None? <==> !Contains(s, sub)
    decreases |s|
  {
    if |s| < |sub| then None
    else if s[..|sub|] == sub then Some(0)
    else
      assert !OccursAt(s, sub, 0);
      match Find(s[1..], sub)
      case None =>
        forall j | 1 <= j <= |s| ensures !OccursAt(s, sub, j) {
          OccursAtTail(s, sub, j);
        }
        None
      case Some(i) =>
        OccursAtTail(s, sub, i + 1);
        forall j | 1 <= j < i + 1 ensures !OccursAt(s, sub, j) {
          OccursAtTail(s, sub, j);
        }
        Some(i + 1)
  }

  /** `s.split(sep)` for a non-empty separator: the pieces between occurrences, left to right. */
  function Split<T(==)>(s: seq<T>, sep: seq<T>): (r: seq<seq<T>>)
    requires |sep| > 0
    ensures |r| >= 1
    ensures forall k :: 0 <= k < |r| ==> !Contains(r[k], sep)
    decreases |s|
  {
    match Find(s, sep)
    case None => [s]
    case Some(i) =>
      PrefixBeforeFirst(s, sep, i);
      [s[..i]] + Split(s[i + |sep|..], sep)
  }

  /** The part of `s` before the first occurrence of `sep` holds no occurrence of it. */
  lemma PrefixBeforeFirst<T>(s: seq<T>, sep: seq<T>, i: nat)
    requires |sep| > 0 && Find(s, sep) == Some(i)
    ensures !Contains(s[..i], sep)
  {
    if Contains(s[..i], sep) {
      var j :| 0 <= j <= i && OccursAt(s[..i], sep, j);
      assert s[..i][j..j + |sep|] == s[j..j + |sep|];
      assert OccursAt(s, sep, j);
    }
  }

  /** `sep.join(parts)`. */
  function Join<T>(parts: seq<seq<T>>, sep: seq<T>): seq<T>
    requires |parts| > 0
  {
    if |parts| == 1 then parts[0] else parts[0] + sep + Join(parts[1..], sep)
  }

  /** Splitting loses nothing: joining the pieces back with the separator gives the input. */
  lemma {:induction false} SplitJoin<T>(s: seq<T>, sep: seq<T>)
    requires |sep| > 0
    ensures Join(Split(s, sep), sep) == s
    decreases |s|
  {
    SplitUnfold(s, sep);
    match Find(s, sep)
    case None =>
    case Some(i) =>
      var t := s[i + |sep|..];
      JoinCons(s[..i], Split(t, sep), sep);
      SplitJoin(t, sep);
      assert OccursAt(s, sep, i);
      SliceThree(s, i, i + |sep|);
  }

  lemma SliceThree<T>(s: seq<T>, i: nat, j: nat)
    requires i <= j <= |s|
    ensures s == s[..i] + s[i..j] + s[j..]
  {
  }

  lemma JoinCons<T>(x: seq<T>, q: seq<seq<T>>, sep: seq<T>)
    requires |q| > 0
    ensures Join([x] + q, sep) == x + sep + Join(q, sep)
  {
    assert ([x] + q)[1..] == q;
  }

  /** A one-element pattern occurs exactly where that element stands. */
  lemma OccursAtSingle<T>(s: seq<T>, e: T, j: int)
    ensures OccursAt(s, [e], j) <==> 0 <= j < |s| && s[j] == e
  {
    if 0 <= j < |s| {
      assert s[j..j + 1] == [s[j]];
    }
  }

  /** When `x` does not hold `e`, the first `e` in `x + y` is the first one in `y`. */
  lemma NoElemFind<T>(x: seq<T>, y: seq<T>, e: T)
    requires e !in x
    ensures y != [] && y[0] == e ==> Find(x + y, [e]) == Some(|x|)
    ensures e !in y ==> Find(x + y, [e]) == None
  {
    var s := x + y;
    if y != [] && y[0] == e {
      OccursAtSingle(s, e, |x|);
      forall j | 0 <= j < |x| ensures !OccursAt(s, [e], j) {
        OccursAtSingle(s, e, j);
      }
      var r := Find(s, [e]);
      if r.Some? {
        OccursAtSingle(s, e, r.value);
      }
    }
    if e !in y {
      if Contains(s, [e]) {
        var i :| 0 <= i <= |s| && OccursAt(s, [e], i);
        OccursAtSingle(s, e, i);
      }
    }
  }

  /**
   * The piece `Split(s, sep)[1]` is the text between the first and the second
   * occurrence of a one-element separator.
   */
  lemma SecondPiece<T>(s: seq<T>, a: seq<T>, b: seq<T>, rest: seq<T>, sep: T)
    requires s == a + [sep] + b + rest
    requires sep !in a && sep !in b
    requires rest == [] || rest[0] == sep
    ensures |Split(s, [sep])| >= 2 && Split(s, [sep])[1] == b
  {
    assert s == a + [sep] + (b + rest);
    SplitCons(a, b + rest, sep);
    FirstPiece(b, rest, sep);
  }

  /** The first piece of a split is the text before the first separator. */
  lemma FirstPiece<T>(a: seq<T>, rest: seq<T>, sep: T)
    requires sep !in a && (rest == [] || rest[0] == sep)
    ensures Split(a + rest, [sep])[0] == a
  {
    NoElemFind(a, rest, sep);
    if rest != [] {
      assert (a + rest)[..|a|] == a;
    } else {
      assert a + rest == a;
    }
  }

  /** A piece of a split at a one-element separator does not hold that element. */
  lemma NotContainedSingle<T>(x: seq<T>, e: T)
    requires !Contains(x, [e])
    ensures e !in x
  {
    if e in x {
      var j :| 0 <= j < |x| && x[j] == e;
      OccursAtSingle(x, e, j);
    }
  }

  lemma SplitUnfold<T>(s: seq<T>, sep: seq<T>)
    requires |sep| > 0
    ensures Find(s, sep).None? ==> Split(s, sep) == [s]
    ensures Find(s, sep).Some? ==> Split(s, sep) == [s[..Find(s, sep).value]] + Split(s[Find(s, sep).value + |sep|..], sep)
  {
  }

  /** A separator that occurs splits the text into at least two pieces. */
  lemma SplitFound<T>(s: seq<T>, sep: seq<T>)
    requires |sep| > 0 && Contains(s, sep)
    ensures |Split(s, sep)| >= 2
  {
    SplitUnfold(s, sep);
  }

  /** Splitting text that starts with a separator-free piece and a separator. */
  lemma SplitCons<T>(a: seq<T>, rest: seq<T>, sep: T)
    requires sep !in a
    ensures Split(a + [sep] + rest, [sep]) == [a] + Split(rest, [sep])
  {
    var s := a + [sep] + rest;
    assert s == a + ([sep] + rest);
    NoElemFind(a, [sep] + rest, sep);
    SplitUnfold(s, [sep]);
    assert s[..|a|] == a;
    assert s[|a| + 1..] == rest;
  }

  /** Text without the separator is a single piece. */
  lemma SplitNone<T>(a: seq<T>, sep: T)
    requires sep !in a
    ensures Split(a, [sep]) == [a]
  {
    NoElemFind(a, [], sep);
    assert a + [] == a;
  }

  /**
   * When a split at a one-element separator has two pieces, the input is the
   * first piece, the separator, the second piece, and then nothing or another
   * separator.
   */
  lemma SplitSecond<T>(s: seq<T>, sep: T)
    requires |Split(s, [sep])| >= 2
    ensures var p := Split(s, [sep]); var n := |p[0]| + 1 + |p[1]|;
      n <= |s| && s == p[0] + [sep] + p[1] + s[n..] && (n == |s| || s[n] == sep)
  {
    var p := Split(s, [sep]);
    SplitUnfold(s, [sep]);
    var i := Find(s, [sep]).value;
    var t := s[i + 1..];
    assert p[0] == s[..i] && p[1] == Split(t, [sep])[0];
    SplitAround(s, sep, i);
    SplitFirstRest(t, sep);
    var n := |p[0]| + 1 + |p[1]|;
    assert s[n..] == t[|p[1]|..];
    assert t == p[1] + s[n..];
    assert s == p[0] + [sep] + (p[1] + s[n..]);
  }

  lemma SplitAround<T>(s: seq<T>, sep: T, i: nat)
    requires Find(s, [sep]) == Some(i)
    ensures i < |s| && s == s[..i] + [sep] + s[i + 1..]
  {
    OccursAtSingle(s, sep, i);
    SliceAround(s, i);
  }

  lemma SliceAround<T>(s: seq<T>, i: nat)
    requires i < |s|
    ensures s == s[..i] + [s[i]] + s[i + 1..]
  {
  }

  /** The first piece of a split, and after it nothing or the separator. */
  lemma SplitFirstRest<T>(t: seq<T>, sep: T)
    ensures var n := |Split(t, [sep])[0]|;
      n <= |t| && t == Split(t, [sep])[0] + t[n..] && (n == |t| || t[n] == sep)
  {
    SplitUnfold(t, [sep]);
    if Find(t, [sep]).Some? {
      var i2 := Find(t, [sep]).value;
      OccursAtSingle(t, sep, i2);
    }
  }

  /**
   * The first two pieces of a split are `a` and `b` exactly when the input
   * starts with `a`, the separator and `b`, followed by nothing or another
   * separator.
   */
  lemma SplitTwoFields<T>(s: seq<T>, a: seq<T>, b: seq<T>, sep: T)
    requires sep !in a && sep !in b
    ensures (|Split(s, [sep])| >= 2 && Split(s, [sep])[0] == a && Split(s, [sep])[1] == b) <==>
      (StartsWith(s, a + [sep] + b) && (|s| == |a| + 1 + |b| || s[|a| + 1 + |b|] == sep))
  {
    var p := Split(s, [sep]);
    if |p| >= 2 && p[0] == a && p[1] == b {
      TwoFieldsShape(s, a, b, sep);
    }
    if StartsWith(s, a + [sep] + b) && (|s| == |a| + 1 + |b| || s[|a| + 1 + |b|] == sep) {
      ShapeTwoFields(s, a, b, sep);
    }
  }

  lemma TwoFieldsShape<T>(s: seq<T>, a: seq<T>, b: seq<T>, sep: T)
    requires |Split(s, [sep])| >= 2 && Split(s, [sep])[0] == a && Split(s, [sep])[1] == b
    ensures StartsWith(s, a + [sep] + b) && (|s| == |a| + 1 + |b| || s[|a| + 1 + |b|] == sep)
  {
    SplitSecond(s, sep);
    var n := |a| + 1 + |b|;
    var h := a + [sep] + b;
    assert s == h + s[n..];
    assert s[..|h|] == h;
  }

  lemma ShapeTwoFields<T>(s: seq<T>, a: seq<T>, b: seq<T>, sep: T)
    requires sep !in a && sep !in b
    requires StartsWith(s, a + [sep] + b) && (|s| == |a| + 1 + |b| || s[|a| + 1 + |b|] == sep)
    ensures |Split(s, [sep])| >= 2 && Split(s, [sep])[0] == a && Split(s, [sep])[1] == b
  {
    var h := a + [sep] + b;
    var rest := s[|h|..];
    assert rest == [] || rest[0] == sep;
    assert s == a + [sep] + (b + rest) by {
      assert s == s[..|h|] + rest;
    }
    SplitCons(a, b + rest, sep);
    FirstPiece(b, rest, sep);
  }

  predicate IsSpace(c: char) {
    c == ' ' || c == '\t' || c == '\n' || c == '\r' || c == '\U{0B}' || c == '\U{0C}'
  }

  predicate NoSpace(s: string) {
    forall j :: 0 <= j < |s| ==> !IsSpace(s[j])
  }

  /** The longest prefix of `s` without whitespace. */
  function WordPrefix(s: string): (w: string)
    ensures w <= s && NoSpace(w)
    ensures |w| < |s| ==> IsSpace(s[|w|])
  {
    if s == [] || IsSpace(s[0]) then [] else [s[0]] + WordPrefix(s[1..])
  }

  /** `s.split()`: the maximal runs of non-whitespace characters. */
  function Words(s: string): (r: seq<string>)
    ensures forall k :: 0 <= k < |r| ==> |r[k]| > 0 && NoSpace(r[k])
    decreases |s|
  {
    if s == [] then []
    else if IsSpace(s[0]) then Words(s[1..])
    else
      var w := WordPrefix(s);
      [w] + Words(s[|w|..])
  }

  /** The words joined with single spaces, as a client writes a request line. */
  function Unwords(ws: seq<string>): string {
    if ws == [] then [] else if |ws| == 1 then ws[0] else ws[0] + " " + Unwords(ws[1..])
  }

  predicate AllSpace(s: string) {
    forall j :: 0 <= j < |s| ==> IsSpace(s[j])
  }

  /** Leading whitespace is skipped by `split()`. */
  lemma {:induction false} WordsSkipSpace(sp: string, s: string)
    requires AllSpace(sp)
    ensures Words(sp + s) == Words(s)
    decreases |sp|
  {
    if sp != [] {
      assert (sp + s)[0] == sp[0];
      assert (sp + s)[1..] == sp[1..] + s;
      assert Words(sp + s) == Words(sp[1..] + s);
      WordsSkipSpace(sp[1..], s);
    } else {
      assert sp + s == s;
    }
  }

  lemma {:induction false} WordPrefixOf(w: string, s: string)
    requires NoSpace(w) && (s == [] || IsSpace(s[0]))
    ensures WordPrefix(w + s) == w
    decreases |w|
  {
    if w != [] {
      assert (w + s)[1..] == w[1..] + s;
      WordPrefixOf(w[1..], s);
    }
  }

  /** A word followed by whitespace (or nothing) is the first word. */
  lemma WordsCons(w: string, rest: string)
    requires |w| > 0 && NoSpace(w) && (rest == [] || IsSpace(rest[0]))
    ensures Words(w + rest) == [w] + Words(rest)
  {
    WordPrefixOf(w, rest);
    assert (w + rest)[0] == w[0];
    assert (w + rest)[|w|..] == rest;
  }

  /**
   * `split()` undoes `Unwords` whatever whitespace ends the line: a request line
   * of three space-separated tokens splits into exactly those three tokens.
   */
  lemma {:induction false} WordsUnwords(ws: seq<string>, tail: string)
    requires forall k :: 0 <= k < |ws| ==> |ws[k]| > 0 && NoSpace(ws[k])
    requires AllSpace(tail)
    ensures Words(Unwords(ws) + tail) == ws
    decreases |ws|
  {
    WordsSkipSpace(tail, []);
    assert tail + [] == tail;
    if ws == [] {
      assert Unwords(ws) + tail == tail;
    } else if |ws| == 1 {
      assert Unwords(ws) + tail == ws[0] + tail;
      WordsCons(ws[0], tail);
    } else {
      var x := Unwords(ws[1..]) + tail;
      assert Unwords(ws) + tail == ws[0] + (" " + x);
      WordsCons(ws[0], " " + x);
      WordsSkipSpace(" ", x);
      WordsUnwords(ws[1..], tail);
      assert ws == [ws[0]] + ws[1..];
    }
  }

  function LStrip(s: string): (r: string)
    ensures r == [] || !IsSpace(r[0])
    ensures |r| <= |s| && r == s[|s| - |r|..]
  {
    if s != [] && IsSpace(s[0]) then LStrip(s[1..]) else s
  }

  function RStrip(s: string): (r: string)
    ensures r == [] || !IsSpace(r[|r| - 1])
    ensures r <= s
  {
    if s != [] && IsSpace(s[|s| - 1]) then RStrip(s[..|s| - 1]) else s
  }

  /** `s.strip()`. */
  function Strip(s: string): string {
    RStrip(LStrip(s))
  }

  /** A stripped string has no whitespace at either end. */
  predicate Trimmed(s: string) {
    s == [] || (!IsSpace(s[0]) && !IsSpace(s[|s| - 1]))
  }

  lemma StripTrimmed(s: string)
    ensures Trimmed(Strip(s))
  {
    var l := LStrip(s);
    var r := RStrip(l);
    if r != [] {
      assert r[0] == l[0];
    }
  }

  /** `strip()` leaves an already trimmed string alone. */
  lemma StripTrimmedId(s: string)
    requires Trimmed(s)
    ensures Strip(s) == s
  {
  }

  lemma {:induction false} LStripSpace(sp: string, x: string)
    requires AllSpace(sp) && (x == [] || !IsSpace(x[0]))
    ensures LStrip(sp + x) == x
    decreases |sp|
  {
    if sp != [] {
      assert (sp + x)[1..] == sp[1..] + x;
      LStripSpace(sp[1..], x);
    }
  }

  lemma {:induction false} RStripSpace(x: string, sp: string)
    requires AllSpace(sp) && (x == [] || !IsSpace(x[|x| - 1]))
    ensures RStrip(x + sp) == x
    decreases |sp|
  {
    if sp != [] {
      assert (x + sp)[..|x + sp| - 1] == x + sp[..|sp| - 1];
      RStripSpace(x, sp[..|sp| - 1]);
    }
  }

  /** `strip()` removes exactly the surrounding whitespace and nothing of a trimmed middle. */
  lemma StripSurrounded(sp1: string, x: string, sp2: string)
    requires AllSpace(sp1) && AllSpace(sp2) && Trimmed(x)
    ensures Strip(sp1 + x + sp2) == x
  {
    assert sp1 + x + sp2 == sp1 + (x + sp2);
    if x == [] {
      assert AllSpace(x + sp2);
      LStripAll(sp1 + x + sp2);
    } else {
      LStripSpace(sp1, x + sp2);
      RStripSpace(x, sp2);
    }
  }

  lemma {:induction false} LStripAll(s: string)
    requires AllSpace(s)
    ensures LStrip(s) == []
    decreases |s|
  {
    if s != [] {
      LStripAll(s[1..]);
    }
  }

  /** `s.rstrip(c)` for a single character. */
  function RStripChar(s: string, c: char): (r: string)
    ensures r <= s && (r == [] || r[|r| - 1] != c)
  {
    if s != [] && s[|s| - 1] == c then RStripChar(s[..|s| - 1], c) else s
  }

  /** `s.replace(old, new)`: occurrences replaced left to right, without overlap. */
  function Replace<T(==)>(s: seq<T>, pat: seq<T>, rep: seq<T>): seq<T>
    requires |pat| > 0
    decreases |s|
  {
    if |s| < |pat| then s
    else if s[..|pat|] == pat then rep + Replace(s[|pat|..], pat, rep)
    else [s[0]] + Replace(s[1..], pat, rep)
  }

  /** No two adjacent dots. */
  predicate NoDotDot(s: string) {
    forall j :: 0 <= j < |s| - 1 ==> !(s[j] == '.' && s[j + 1] == '.')
  }

  lemma NoDotDotContains(s: string)
    ensures NoDotDot(s) <==> !Contains(s, "..")
  {
    if !NoDotDot(s) {
      var j :| 0 <= j < |s| - 1 && s[j] == '.' && s[j + 1] == '.';
      assert s[j..j + 2] == "..";
      assert OccursAt(s, "..", j);
    }
    if Contains(s, "..") {
      var i :| 0 <= i <= |s| && OccursAt(s, "..", i);
      assert s[i..i + 2][0] == s[i] && s[i..i + 2][1] == s[i + 1];
      assert s[i] == '.' && s[i + 1] == '.';
    }
  }

  /**
   * One pass of `replace("..", "")` leaves no `..` behind: no new pair can form
   * at a seam, because a piece that is followed by a removed `..` cannot end in a dot.
   */
  lemma {:induction false} RemoveDotDot(s: string)
    ensures NoDotDot(Replace(s, "..", ""))
    ensures |s| > 0 && s[0] != '.' ==> Replace(s, "..", "") != [] && Replace(s, "..", "")[0] == s[0]
    decreases |s|
  {
    var r := Replace(s, "..", "");
    if |s| < 2 {
    } else if s[..2] == ".." {
      RemoveDotDot(s[2..]);
    } else {
      RemoveDotDot(s[1..]);
      var t := Replace(s[1..], "..", "");
      assert r == [s[0]] + t;
      if s[0] == '.' {
        assert s[1] != '.' by { assert s[..2] == [s[0], s[1]]; }
        assert s[1..][0] == s[1];
      }
    }
  }
}
