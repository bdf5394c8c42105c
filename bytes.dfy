/** Bytes, the few byte constants the multipart parser compares against, ASCII
    lowercasing, and the concatenation a piece builder performs. */
module Bytes {

  type byte = x: int | 0 <= x < 256

  const CR: byte := 13
  const LF: byte := 10
  const DASH: byte := 45
  const SP: byte := 32
  const HT: byte := 9

  /** True for the bytes 'A' .. 'Z'. */
  predicate IsAsciiUpper(b: byte) {
    65 <= b <= 90
  }

  /** ASCII lowercasing of one byte, the "C" locale behaviour of tolower. */
  function AsciiLower(b: byte): (r: byte)
    ensures IsAsciiUpper(b) ==> r == b + 32
    ensures !IsAsciiUpper(b) ==> r == b
    ensures !IsAsciiUpper(r)
  {
    if IsAsciiUpper(b) then b + 32 else b
  }

  /** ASCII lowercasing of a byte string. */
  function LowerAll(s: seq<byte>): (r: seq<byte>)
    ensures |r| == |s|
    ensures forall i :: 0 <= i < |s| ==> r[i] == AsciiLower(s[i])
  {
    seq(|s|, i requires 0 <= i < |s| => AsciiLower(s[i]))
  }

  /** The string a piece builder turns into: all pieces joined in order. */
  function Concat(pieces: seq<seq<byte>>): (r: seq<byte>)
    decreases |pieces|
  {
    if |pieces| == 0 then [] else Concat(pieces[..|pieces| - 1]) + pieces[|pieces| - 1]
  }

  /** Appending one piece appends its bytes to the joined string. */
  lemma ConcatAppend(pieces: seq<seq<byte>>, p: seq<byte>)
    ensures Concat(pieces + [p]) == Concat(pieces) + p
  {
    assert (pieces + [p])[..|pieces|] == pieces;
  }

  /** A single piece joins to itself. */
  lemma ConcatSingle(p: seq<byte>)
    ensures Concat([p]) == p
  {
    assert [p][..0] == [];
  }

  /** Joining two lists of pieces joins their strings. */
  lemma {:induction false} ConcatSplit(a: seq<seq<byte>>, b: seq<seq<byte>>)
    ensures Concat(a + b) == Concat(a) + Concat(b)
    decreases |b|
  {
    if |b| == 0 {
      assert a + b == a;
    } else {
      var b' := b[..|b| - 1];
      assert a + b == (a + b') + [b[|b| - 1]];
      ConcatAppend(a + b', b[|b| - 1]);
      ConcatSplit(a, b');
      ConcatAppend(b', b[|b| - 1]);
      assert b'+ [b[|b| - 1]] == b;
    }
  }

  /** The joined string is as long as all pieces together. */
  function TotalLength(pieces: seq<seq<byte>>): nat
    decreases |pieces|
  {
    if |pieces| == 0 then 0 else TotalLength(pieces[..|pieces| - 1]) + |pieces[|pieces| - 1]|
  }

  lemma {:induction false} ConcatLength(pieces: seq<seq<byte>>)
    ensures |Concat(pieces)| == TotalLength(pieces)
    decreases |pieces|
  {
    if |pieces| > 0 {
      ConcatLength(pieces[..|pieces| - 1]);
    }
  }
}
