/**
 * The host's `interleave_vectors(x, y)`: the elements of `x` and `y` in
 * alternation, `x[0], y[0], x[1], y[1], ...`, followed by the rest of the
 * longer of the two once the shorter one is used up.
 */
module Interleave {

  function Min(a: int, b: int): int {
    if a <= b then a else b
  }

  /** The interleaving of `x` and `y`, one pair of heads at a time. */
  function Interleaved<T>(x: seq<T>, y: seq<T>): (r: seq<T>)
    ensures |r| == |x| + |y|
  {
    if |x| == 0 then y
    else if |y| == 0 then x
    else [x[0], y[0]] + Interleaved(x[1..], y[1..])
  }

  /**
   * `interleave_vectors(x, y)`: pushes the heads of both iterators while
   * both have one; when one runs out, pushes the other's remaining
   * elements, in order, and stops.
   */
  method InterleaveVectors<T>(x: seq<T>, y: seq<T>) returns (result: seq<T>)
    ensures result == Interleaved(x, y)
    ensures |result| == |x| + |y|
    ensures |x| == 0 ==> result == y
    ensures |y| == 0 ==> result == x
  {
    result := [];
    var i := 0;
    while i < |x| && i < |y|
      invariant 0 <= i <= |x| && i <= |y|
      invariant result + Interleaved(x[i..], y[i..]) == Interleaved(x, y)
    {
      InterleavedFrom(x, y, i);
      assert result + Interleaved(x[i..], y[i..])
          == (result + [x[i], y[i]]) + Interleaved(x[i + 1..], y[i + 1..]);
      result := result + [x[i], y[i]];
      i := i + 1;
    }
    // One iterator is exhausted; the rest of the other one follows.
    InterleavedRest(x, y, i);
    if i < |x| {
      assert result + x[i..] == Interleaved(x, y);
      var j := i;
      while j < |x|
        invariant i <= j <= |x|
        invariant result + x[j..] == Interleaved(x, y)
      {
        DropOne(x, j);
        assert result + x[j..] == (result + [x[j]]) + x[j + 1..];
        result := result + [x[j]];
        j := j + 1;
      }
    } else {
      assert result + y[i..] == Interleaved(x, y);
      var j := i;
      while j < |y|
        invariant i <= j <= |y|
        invariant result + y[j..] == Interleaved(x, y)
      {
        DropOne(y, j);
        assert result + y[j..] == (result + [y[j]]) + y[j + 1..];
        result := result + [y[j]];
        j := j + 1;
      }
    }
  }

  lemma InterleavedFrom<T>(x: seq<T>, y: seq<T>, i: int)
    requires 0 <= i < |x| && i < |y|
    ensures Interleaved(x[i..], y[i..]) == [x[i], y[i]] + Interleaved(x[i + 1..], y[i + 1..])
  {
    assert x[i..][1..] == x[i + 1..] && y[i..][1..] == y[i + 1..];
  }

  lemma InterleavedRest<T>(x: seq<T>, y: seq<T>, i: int)
    requires 0 <= i <= |x| && i <= |y| && (i == |x| || i == |y|)
    ensures Interleaved(x[i..], y[i..]) == if i < |x| then x[i..] else y[i..]
  {
  }

  lemma DropOne<T>(s: seq<T>, j: int)
    requires 0 <= j < |s|
    ensures s[j..] == [s[j]] + s[j + 1..]
  {
  }

  /** Position `2 * i` holds `x[i]` and position `2 * i + 1` holds `y[i]`. */
  lemma {:induction false} InterleavedAt<T>(x: seq<T>, y: seq<T>, i: int)
    requires 0 <= i < |x| && i < |y|
    ensures Interleaved(x, y)[2 * i] == x[i]
    ensures Interleaved(x, y)[2 * i + 1] == y[i]
  {
    if i > 0 {
      InterleavedAt(x[1..], y[1..], i - 1);
    }
  }

  /**
   * After the `2 * m` alternating elements, with `m` the shorter length,
   * come the rest of `x` and then the rest of `y`, one of which is empty.
   */
  lemma {:induction false} InterleavedTail<T>(x: seq<T>, y: seq<T>)
    ensures var m := Min(|x|, |y|);
      Interleaved(x, y)[2 * m..] == x[m..] + y[m..]
  {
    if |x| > 0 && |y| > 0 {
      InterleavedTail(x[1..], y[1..]);
      var m := Min(|x|, |y|);
      assert Interleaved(x, y)[2 * m..] == Interleaved(x[1..], y[1..])[2 * (m - 1)..];
      assert x[m..] == x[1..][m - 1..] && y[m..] == y[1..][m - 1..];
    }
  }

  /** The elements at even positions. */
  function Evens<T>(s: seq<T>): seq<T> {
    if |s| == 0 then [] else if |s| == 1 then s else [s[0]] + Evens(s[2..])
  }

  /** The elements at odd positions. */
  function Odds<T>(s: seq<T>): seq<T> {
    if |s| < 2 then [] else [s[1]] + Odds(s[2..])
  }

  /**
   * For vectors of equal length, the interleaving loses nothing: the even
   * positions give back `x` and the odd ones `y`.
   */
  lemma {:induction false} Deinterleave<T>(x: seq<T>, y: seq<T>)
    requires |x| == |y|
    ensures Evens(Interleaved(x, y)) == x
    ensures Odds(Interleaved(x, y)) == y
  {
    if |x| > 0 {
      var r := Interleaved(x, y);
      assert r[2..] == Interleaved(x[1..], y[1..]);
      Deinterleave(x[1..], y[1..]);
      assert x == [x[0]] + x[1..] && y == [y[0]] + y[1..];
    }
  }

}
