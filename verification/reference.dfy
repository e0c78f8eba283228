/**
 The reference behaviour of the search: the leftmost offset at which the
 pattern occurs in the text, found by trying every offset in turn.
 */
module Reference {
  import opened Wrappers

  /** The pattern occurs in the text starting at offset `k`: element by
      element, `text[k + t] == pattern[t]`. The quantifier is triggered on
      the pattern side only, so facts about occurrences at different
      offsets do not feed each other. */
  ghost predicate OccursAt<T>(text: seq<T>, pattern: seq<T>, k: int) {
    && 0 <= k && k + |pattern| <= |text|
    && forall t {:trigger pattern[t]} :: 0 <= t < |pattern| ==> text[k + t] == pattern[t]
  }

  /** An occurrence is a window of the text equal to the pattern. */
  lemma OccursAtIsSlice<T>(text: seq<T>, pattern: seq<T>, k: int)
    ensures OccursAt(text, pattern, k) <==> 0 <= k && k + |pattern| <= |text| && text[k..k + |pattern|] == pattern
  {
    if 0 <= k && k + |pattern| <= |text| {
      var window := text[k..k + |pattern|];
      assert forall t :: 0 <= t < |pattern| ==> window[t] == text[k + t];
      if OccursAt(text, pattern, k) {
        assert window == pattern;
      }
    }
  }

  /** The naive search: the first offset `>= k` where the pattern occurs. */
  function FindFrom<T(==)>(text: seq<T>, pattern: seq<T>, k: nat): (r: Option<nat>)
    ensures r.Some? ==> k <= r.value && OccursAt(text, pattern, r.value)
    ensures r.Some? ==> forall s :: k <= s < r.value ==> !OccursAt(text, pattern, s)
    ensures r.None? ==> forall s :: k <= s ==> !OccursAt(text, pattern, s)
    decreases |text| - k
  {
    if k + |pattern| > |text| then None
    else
      OccursAtIsSlice(text, pattern, k);
      if text[k..k + |pattern|] == pattern then Some(k)
      else FindFrom(text, pattern, k + 1)
  }

  /** The offset of the leftmost occurrence of `pattern` in `text`. */
  function NaiveFind<T(==)>(text: seq<T>, pattern: seq<T>): (r: Option<nat>)
    ensures r.Some? ==> OccursAt(text, pattern, r.value)
    ensures r.Some? ==> forall s :: 0 <= s < r.value ==> !OccursAt(text, pattern, s)
    ensures r.None? <==> forall s :: !OccursAt(text, pattern, s)
  {
    FindFrom(text, pattern, 0)
  }

  /** A sound and leftmost answer, complete when it is `None`, is the
      reference answer: the reference is the only such answer. */
  lemma LeftmostIsReference<T>(text: seq<T>, pattern: seq<T>, r: Option<nat>)
    requires r.Some? ==> OccursAt(text, pattern, r.value)
    requires r.Some? ==> forall s :: 0 <= s < r.value ==> !OccursAt(text, pattern, s)
    requires r.None? ==> forall s :: !OccursAt(text, pattern, s)
    ensures r == NaiveFind(text, pattern)
  {
  }

  /** The empty pattern occurs at offset 0 of every text. */
  lemma EmptyPatternAtZero<T>(text: seq<T>)
    ensures NaiveFind(text, []) == Some(0)
  {
  }

  /** A pattern at least as long as the text occurs only when it is the text,
      and then at offset 0. */
  lemma LongPattern<T>(text: seq<T>, pattern: seq<T>)
    requires |pattern| >= |text|
    ensures NaiveFind(text, pattern) == if pattern == text then Some(0) else None
  {
  }

  /** Every contiguous piece of a text is found in it, at its own offset
      or earlier. */
  lemma {:induction false} SubstringIsFound<T>(text: seq<T>, lo: int, hi: int)
    requires 0 <= lo <= hi <= |text|
    ensures NaiveFind(text, text[lo..hi]).Some?
    ensures NaiveFind(text, text[lo..hi]).value <= lo
  {
    OccursAtIsSlice(text, text[lo..hi], lo);
  }

  /** When a pattern is found in a text, every contiguous piece of the
      pattern is found there too, no later than where it sits inside the
      first occurrence. */
  lemma {:induction false} PiecesOfFoundPatternAreFound<T>(text: seq<T>, pattern: seq<T>, lo: int, hi: int)
    requires NaiveFind(text, pattern).Some?
    requires 0 <= lo <= hi <= |pattern|
    ensures NaiveFind(text, pattern[lo..hi]).Some?
    ensures NaiveFind(text, pattern[lo..hi]).value <= NaiveFind(text, pattern).value + lo
  {
    var k := NaiveFind(text, pattern).value;
    var piece := pattern[lo..hi];
    forall t | 0 <= t < |piece|
      ensures text[k + lo + t] == piece[t]
    {
      assert piece[t] == pattern[lo + t];
    }
    assert OccursAt(text, piece, k + lo);
  }
}
