/** Shared vocabulary of the model: optional values and raw bytes. */
module Base {

  datatype Option<+T> = None | Some(value: T)

  /** One octet of a socket stream or of a file. */
  type Byte = b: int | 0 <= b < 0x100

  type Bytes = seq<Byte>

  /** The two bytes `\r\n` that end a line on the wire. */
  const CRLF: Bytes := [13, 10]

  /** The pieces of `ls` written one after the other. */
  function Concat(ls: seq<Bytes>): Bytes {
    if ls == [] then [] else ls[0] + Concat(ls[1..])
  }

  /** Writing `a`, then `b`, then `c` leaves the same bytes as writing `a` and then `b + c`. */
  lemma AppendAssoc<T>(a: seq<T>, b: seq<T>, c: seq<T>)
    ensures a + b + c == a + (b + c)
  {
  }

  lemma AppendEmpty<T>(a: seq<T>)
    ensures a + [] == a
  {
  }

  /** Cutting a sequence in two and joining the halves gives it back. */
  lemma TakeDropJoin<T>(s: seq<T>, k: nat)
    requires k <= |s|
    ensures s[..k] + s[k..] == s
  {
  }

  /** A second update of the same key replaces the first. */
  lemma UpdateTwice<K, V>(m: map<K, V>, k: K, v: V, w: V)
    ensures m[k := v][k := w] == m[k := w]
  {
  }

  /** `f` applied to every element, or None as soon as it fails on one. */
  function MapAll<A, B>(xs: seq<A>, f: A -> Option<B>): Option<seq<B>>
    decreases |xs|
  {
    if xs == [] then Some([])
    else
      match f(xs[0])
      case None => None
      case Some(y) =>
        match MapAll(xs[1..], f)
        case None => None
        case Some(ys) => Some([y] + ys)
  }

  /** One more element in front: its result goes in front, or its failure fails the whole. */
  lemma MapAllCons<A, B>(x: A, xs: seq<A>, f: A -> Option<B>)
    ensures f(x).None? ==> MapAll([x] + xs, f).None?
    ensures f(x).Some? ==> MapAll([x] + xs, f) == (match MapAll(xs, f) case None => None case Some(ys) => Some([f(x).value] + ys))
  {
    assert ([x] + xs)[0] == x && ([x] + xs)[1..] == xs;
  }

  /** `MapAll` succeeds exactly when `f` succeeds on each element, and then holds `f`'s results in order. */
  lemma {:induction false} MapAllMeaning<A, B>(xs: seq<A>, f: A -> Option<B>)
    ensures var r := MapAll(xs, f);
      r.Some? ==> |r.value| == |xs| && forall j :: 0 <= j < |xs| ==> f(xs[j]) == Some(r.value[j])
    ensures MapAll(xs, f).None? ==> exists j :: 0 <= j < |xs| && f(xs[j]).None?
    decreases |xs|
  {
    if xs != [] {
      MapAllMeaning(xs[1..], f);
      match f(xs[0])
      case None =>
      case Some(y) =>
        match MapAll(xs[1..], f)
        case None =>
          var j :| 0 <= j < |xs| - 1 && f(xs[1..][j]).None?;
          assert xs[1..][j] == xs[j + 1];
        case Some(ys) =>
          forall j | 1 <= j < |xs| ensures f(xs[j]) == Some(([y] + ys)[j]) {
            assert xs[j] == xs[1..][j - 1];
          }
    }
  }

  /** The parts on either side of one element. */
  lemma AroundElem<T>(a: seq<T>, x: T, b: seq<T>)
    ensures (a + ([x] + b))[..|a|] == a && (a + ([x] + b))[|a| + 1..] == b
  {
  }
}
