/**
 * One accepted connection: the bytes the client sends, read line by line or
 * by count (`StreamReader.readline`, `StreamReader.read`), and the bytes the
 * server writes back (`writer.write` followed by `drain`).
 */
module Stream {
  import opened Base

  /** The index just past the line that starts at `pos`: after its `\n`, or the end of input. */
  function LineEnd(input: Bytes, pos: nat): (e: nat)
    requires pos <= |input|
    ensures pos <= e <= |input|
    ensures pos < |input| ==> pos < e
    ensures forall j :: pos <= j < e - 1 ==> input[j] != 10
    ensures e > pos ==> input[e - 1] == 10 || e == |input|
    decreases |input| - pos
  {
    if pos == |input| then pos
    else if input[pos] == 10 then pos + 1
    else LineEnd(input, pos + 1)
  }

  /** What `readline()` returns at `pos`: empty exactly at the end of input. */
  function LineAt(input: Bytes, pos: nat): (line: Bytes)
    requires pos <= |input|
    ensures line == [] <==> pos == |input|
  {
    input[pos..LineEnd(input, pos)]
  }

  /** The lines `readline()` returns from `pos` on, up to the end of input; none of them is empty. */
  function LinesFrom(input: Bytes, pos: nat): (ls: seq<Bytes>)
    requires pos <= |input|
    ensures forall k :: 0 <= k < |ls| ==> ls[k] != []
    decreases |input| - pos
  {
    if pos == |input| then [] else [LineAt(input, pos)] + LinesFrom(input, LineEnd(input, pos))
  }

  /** Reading line by line loses nothing: the lines put together are the rest of the input. */
  lemma {:induction false} LinesCover(input: Bytes, pos: nat)
    requires pos <= |input|
    ensures Concat(LinesFrom(input, pos)) == input[pos..]
    decreases |input| - pos
  {
    if pos < |input| {
      var e := LineEnd(input, pos);
      LinesCover(input, e);
      assert input[pos..] == input[pos..e] + input[e..];
    }
  }

  /** One complete line: it ends with a line feed and holds no other. */
  predicate IsLine(l: Bytes) {
    |l| > 0 && l[|l| - 1] == 10 && forall j :: 0 <= j < |l| - 1 ==> l[j] != 10
  }

  lemma {:induction false} LineEndShift(x: Bytes, y: Bytes, p: nat)
    requires p <= |y|
    ensures LineEnd(x + y, |x| + p) == |x| + LineEnd(y, p)
    decreases |y| - p
  {
    if p < |y| {
      assert (x + y)[|x| + p] == y[p];
      LineEndShift(x, y, p + 1);
    }
  }

  lemma {:induction false} LinesFromShift(x: Bytes, y: Bytes, p: nat)
    requires p <= |y|
    ensures LinesFrom(x + y, |x| + p) == LinesFrom(y, p)
    decreases |y| - p
  {
    if p < |y| {
      LineEndShift(x, y, p);
      var e := LineEnd(y, p);
      SliceShift(x, y, p, e);
      LinesFromShift(x, y, e);
    }
  }

  /** A slice of `y` is the same slice of `x + y`, moved by `|x|`. */
  lemma SliceShift(x: Bytes, y: Bytes, i: nat, j: nat)
    requires i <= j <= |y|
    ensures (x + y)[|x| + i..|x| + j] == y[i..j]
  {
  }

  lemma {:induction false} LineEndOfLine(l: Bytes, rest: Bytes, p: nat)
    requires IsLine(l) && p < |l|
    ensures LineEnd(l + rest, p) == |l|
    decreases |l| - p
  {
    if p < |l| - 1 {
      assert (l + rest)[p] == l[p];
      LineEndOfLine(l, rest, p + 1);
    } else {
      assert (l + rest)[p] == l[p];
    }
  }

  /** Complete lines sent one after another are read back as those very lines. */
  lemma {:induction false} LinesOfConcat(ls: seq<Bytes>)
    requires forall k :: 0 <= k < |ls| ==> IsLine(ls[k])
    ensures LinesFrom(Concat(ls), 0) == ls
    decreases |ls|
  {
    if ls != [] {
      var l := ls[0];
      var rest := Concat(ls[1..]);
      LineEndOfLine(l, rest, 0);
      assert (l + rest)[..|l|] == l;
      LinesFromShift(l, rest, 0);
      LinesOfConcat(ls[1..]);
    }
  }

  class Connection {
    /** Everything the client sends on this connection. */
    const input: Bytes
    /** How much of `input` has been consumed. */
    var pos: nat
    /** Everything the server has written so far. */
    var output: Bytes

    ghost predicate Valid()
      reads this
    {
      pos <= |input|
    }

    constructor (request: Bytes)
      ensures Valid() && input == request && pos == 0 && output == []
    {
      input := request;
      pos := 0;
      output := [];
    }

    /** `await reader.readline()`. */
    method ReadLine() returns (line: Bytes)
      requires Valid()
      modifies this`pos
      ensures Valid()
      ensures line == LineAt(input, old(pos)) && pos == LineEnd(input, old(pos))
    {
      var e := LineEnd(input, pos);
      line := input[pos..e];
      pos := e;
    }

    /**
     * `await reader.read(n)`: up to `n` bytes, all that is left when `n` is
     * negative.
     */
    method Read(n: int) returns (data: Bytes)
      requires Valid()
      modifies this`pos
      ensures Valid()
      ensures pos == if n < 0 || old(pos) + n >= |input| then |input| else old(pos) + n
      ensures data == input[old(pos)..pos]
    {
      var e := if n < 0 || pos + n >= |input| then |input| else pos + n;
      data := input[pos..e];
      pos := e;
    }

    /** `writer.write(data)` then `await writer.drain()`. */
    method Write(data: Bytes)
      modifies this`output
      ensures output == old(output) + data
    {
      output := output + data;
    }
  }
}
