/**
 Borders of a prefix of a pattern, and the facts about them that the
 failure table of Knuth-Morris-Pratt rests on.
 */
module Borders {

  /** `k` is the length of a proper border of the prefix `x[..i]`: the first
      `k` elements of that prefix are also its last `k` elements, and `k < i`. */
  ghost predicate IsBorder<T>(x: seq<T>, i: int, k: int) {
    0 <= k < i <= |x| && x[..k] == x[i - k..i]
  }

  /** A border of `x[..i]` followed by the element `x[i]` is a border of
      `x[..i+1]`, and every non-empty border of `x[..i+1]` arises this way. */
  lemma BorderExtend<T>(x: seq<T>, i: int, k: int)
    requires 0 <= k < i < |x|
    ensures IsBorder(x, i + 1, k + 1) <==> IsBorder(x, i, k) && x[k] == x[i]
  {
    assert x[..k + 1] == x[..k] + [x[k]];
    assert x[i - k..i + 1] == x[i - k..i] + [x[i]];
  }

  /** A border of a border is a border. */
  lemma BorderTrans<T>(x: seq<T>, i: int, j: int, k: int)
    requires IsBorder(x, i, j) && IsBorder(x, j, k)
    ensures IsBorder(x, i, k)
  {
    assert x[j - k..j] == x[..j][j - k..j];
    assert x[i - k..i] == x[i - j..i][j - k..j];
  }

  /** Of two borders of the same prefix, the shorter is a border of the longer. */
  lemma BorderOfBorder<T>(x: seq<T>, i: int, j: int, k: int)
    requires IsBorder(x, i, j) && IsBorder(x, i, k) && k < j
    ensures IsBorder(x, j, k)
  {
    assert x[j - k..j] == x[..j][j - k..j];
    assert x[i - k..i] == x[i - j..i][j - k..j];
  }

  /** The empty border: every non-empty prefix has a border of length 0. */
  lemma EmptyBorder<T>(x: seq<T>, i: int)
    requires 0 < i <= |x|
    ensures IsBorder(x, i, 0)
  {
    assert x[..0] == x[i..i];
  }
}
