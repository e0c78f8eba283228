/**
 Knuth-Morris-Pratt search for the first occurrence of a pattern in a text,
 over sequences of any element type with equality.

 The failure ("shift") table holds, for every prefix length `i` of the
 pattern, where the match may resume after a mismatch; `Sentinel` (the
 all-bits-set `usize` of the Rust code) means "no border: restart past the
 current text element".
 */
module Kmp {
  import opened Wrappers
  import opened Borders
  import opened Reference

  /** Stands for `!0`: no border to fall back to. Adding one to it gives 0,
      as `wrapping_add(1)` does to `!0`. */
  const Sentinel: int := -1

  /** `k` is a border of `x[..i]` worth resuming from after a mismatch
      against `x[i]`: the element after the border differs from `x[i]`.
      At the end of the pattern there is no next element, and every proper
      border qualifies. */
  ghost predicate IsStrongBorder<T>(x: seq<T>, i: int, k: int) {
    IsBorder(x, i, k) && (i == |x| || x[k] != x[i])
  }

  /** `v` is the strong failure value of prefix length `i`: the longest
      strong border of `x[..i]`, or `Sentinel` when there is none. */
  ghost predicate IsStrongFailure<T>(x: seq<T>, i: int, v: int) {
    && 0 <= i <= |x|
    && (v == Sentinel || IsStrongBorder(x, i, v))
    && forall k :: v < k < i ==> !IsStrongBorder(x, i, k)
  }

  /** `v` is the longest proper border of `x[..i]`, or `Sentinel` for the
      empty prefix, which has none. */
  ghost predicate IsLongestBorder<T>(x: seq<T>, i: int, v: int) {
    && 0 <= i <= |x|
    && (v == Sentinel || IsBorder(x, i, v))
    && forall k :: v < k < i ==> !IsBorder(x, i, k)
  }

  /** The failure table of `x`: one strong failure value per prefix length
      `0..=|x|`. */
  ghost predicate IsStrongTable<T>(x: seq<T>, next: seq<int>) {
    && |next| == |x| + 1
    && forall i :: 0 <= i <= |x| ==> IsStrongFailure(x, i, next[i])
  }

  /** There is one strong failure value per prefix length: the table is a
      function of the pattern alone. */
  lemma StrongFailureUnique<T>(x: seq<T>, i: int, v: int, w: int)
    requires IsStrongFailure(x, i, v) && IsStrongFailure(x, i, w)
    ensures v == w
  {
  }

  /** Having found the longest border `j` of `x[..i]` that can be extended by
      `x[i]` (or none), `j + 1` is the longest border of `x[..i+1]`. */
  lemma {:induction false} ExtendLongestBorder<T>(x: seq<T>, i: int, j: int)
    requires 0 <= i < |x| && Sentinel <= j < i
    requires j == Sentinel || (IsBorder(x, i, j) && x[j] == x[i])
    requires forall k :: j < k < i && IsBorder(x, i, k) ==> x[k] != x[i]
    ensures IsLongestBorder(x, i + 1, j + 1)
  {
    if j == Sentinel {
      EmptyBorder(x, i + 1);
    } else {
      BorderExtend(x, i, j);
    }
    ghost var i' := i + 1;
    forall k | j + 1 < k < i'
      ensures !IsBorder(x, i', k)
    {
      BorderExtend(x, i, k - 1);
    }
  }

  /** Falling back from border `j` to its strong failure value `v` skips
      only borders of `x[..i]` that cannot be extended by `x[i]`. */
  lemma {:induction false} FallbackKeepsCandidates<T>(x: seq<T>, i: int, j: int, v: int)
    requires 0 <= j < i < |x|
    requires IsBorder(x, i, j) && x[j] != x[i]
    requires IsStrongFailure(x, j, v)
    requires forall k :: j < k < i && IsBorder(x, i, k) ==> x[k] != x[i]
    ensures Sentinel <= v < j
    ensures v == Sentinel || IsBorder(x, i, v)
    ensures forall k :: v < k < i && IsBorder(x, i, k) ==> x[k] != x[i]
  {
    if v != Sentinel {
      BorderTrans(x, i, j, v);
    }
    forall k | v < k < j && IsBorder(x, i, k)
      ensures x[k] != x[i]
    {
      BorderOfBorder(x, i, j, k);
      assert !IsStrongBorder(x, j, k);
    }
  }

  /** When the element after the longest border `j` equals `x[i]`, the
      strong borders of `x[..i]` are exactly those of `x[..j]`, so the
      entry for `i` is inherited from the entry for `j`. */
  lemma {:induction false} InheritFailure<T>(x: seq<T>, i: int, j: int, v: int)
    requires 0 <= j < i < |x|
    requires IsLongestBorder(x, i, j) && x[i] == x[j]
    requires IsStrongFailure(x, j, v)
    ensures IsStrongFailure(x, i, v)
  {
    if v != Sentinel {
      BorderTrans(x, i, j, v);
    }
    forall k | v < k < i
      ensures !IsStrongBorder(x, i, k)
    {
      if IsStrongBorder(x, i, k) && k < j {
        BorderOfBorder(x, i, j, k);
        assert IsStrongBorder(x, j, k);
      }
    }
  }

  /** When the element after the longest border `j` differs from `x[i]`, or
      `i` is the whole pattern, `j` itself is the strong failure value. */
  lemma LongestIsStrong<T>(x: seq<T>, i: int, j: int)
    requires 0 <= j < i <= |x|
    requires IsLongestBorder(x, i, j)
    requires i == |x| || x[i] != x[j]
    ensures IsStrongFailure(x, i, j)
  {
  }

  /** What a strong table says entry by entry: the sentinel at 0, then
      sentinels or proper borders, never followed by the element a mismatch
      was just seen on. */
  lemma StrongTableShape<T>(x: seq<T>, next: seq<int>)
    requires IsStrongTable(x, next)
    ensures next[0] == Sentinel
    ensures forall i :: 1 <= i <= |x| ==> Sentinel <= next[i] < i
    ensures forall i :: 1 <= i <= |x| && next[i] != Sentinel ==> IsBorder(x, i, next[i])
    ensures forall i :: 0 <= i < |x| && next[i] != Sentinel ==> x[next[i]] != x[i]
  {
  }

  /** The border chase of the builder: starting from the longest border `j`
      of `x[..i]`, follows the entries filled so far until the element after
      the border equals `x[i]`, or down to the sentinel. The result is the
      longest border of `x[..i]` that `x[i]` extends, or the sentinel when
      none does. */
  method ChaseBorder<T(==)>(x: seq<T>, next: seq<int>, i: int, j0: int) returns (j: int)
    requires 0 <= i < |x| && i < |next|
    requires forall k :: 0 <= k < i ==> IsStrongFailure(x, k, next[k])
    requires IsLongestBorder(x, i, j0)
    ensures Sentinel <= j < i
    ensures j == Sentinel || (IsBorder(x, i, j) && x[j] == x[i])
    ensures forall k :: j < k < i && IsBorder(x, i, k) ==> x[k] != x[i]
  {
    j := j0;
    while j != Sentinel && x[i] != x[j]
      invariant Sentinel <= j < i
      invariant j == Sentinel || IsBorder(x, i, j)
      invariant forall k :: j < k < i && IsBorder(x, i, k) ==> x[k] != x[i]
      decreases j + 1
    {
      FallbackKeepsCandidates(x, i, j, next[j]);
      j := next[j];
    }
  }

  /** Storing the strong failure value of `i` after the entries below `i`
      gives a table that is correct up to `i`. */
  lemma StoreEntry<T>(x: seq<T>, next0: seq<int>, i: int, v: int, next: seq<int>)
    requires 0 < i <= |x| && |next0| == |x| + 1
    requires forall k :: 0 <= k < i ==> IsStrongFailure(x, k, next0[k])
    requires IsStrongFailure(x, i, v) && next == next0[i := v]
    ensures forall k :: 0 <= k <= i ==> IsStrongFailure(x, k, next[k])
  {
  }

  /** One iteration of the builder's outer loop: chase the longest border
      `j0` of `x[..i0]` down to one that `x[i0]` extends, grow it to the
      longest border `j` of `x[..i0+1]`, and fill entry `i0 + 1` with the
      strong failure value. Entries up to `i0` are kept. */
  method FillEntry<T(==)>(x: seq<T>, next0: seq<int>, i0: int, j0: int) returns (next: seq<int>, j: int)
    requires 0 <= i0 < |x| && |next0| == |x| + 1
    requires IsLongestBorder(x, i0, j0)
    requires forall k :: 0 <= k <= i0 ==> IsStrongFailure(x, k, next0[k])
    ensures |next| == |x| + 1
    ensures IsLongestBorder(x, i0 + 1, j)
    ensures forall k :: 0 <= k <= i0 + 1 ==> IsStrongFailure(x, k, next[k])
  {
    var b := ChaseBorder(x, next0, i0, j0);
    ExtendLongestBorder(x, i0, b);
    var i := i0 + 1;
    j := b + 1;
    var v;
    if i != |x| && x[i] == x[j] {
      InheritFailure(x, i, j, next0[j]);
      v := next0[j];
    } else {
      LongestIsStrong(x, i, j);
      v := j;
    }
    next := next0[i := v];
    StoreEntry(x, next0, i, v, next);
  }

  /** Builds the failure table of `x`, of length `|x| + 1` (the caller's
      zero-filled buffer is allocated here). `next[0]` is the sentinel; for
      `i >= 1`, `next[i]` is the sentinel or a proper border of `x[..i]`,
      and for `i < |x|` the element after that border differs from `x[i]`.
      The last clause pins down every entry: the longest such border. */
  method PrepareKmp<T(==)>(x: seq<T>) returns (next: seq<int>)
    ensures |next| == |x| + 1
    ensures next[0] == Sentinel
    ensures forall i :: 1 <= i <= |x| ==> Sentinel <= next[i] < i
    ensures forall i :: 1 <= i <= |x| && next[i] != Sentinel ==> IsBorder(x, i, next[i])
    ensures forall i :: 0 <= i < |x| && next[i] != Sentinel ==> x[next[i]] != x[i]
    ensures IsStrongTable(x, next)
  {
    var m := |x|;
    next := seq(m + 1, _ => 0);
    var i := 0;
    var j := Sentinel;
    next := next[0 := Sentinel];
    while i < m
      invariant 0 <= i <= m && |next| == m + 1
      invariant IsLongestBorder(x, i, j)
      invariant forall k :: 0 <= k <= i ==> IsStrongFailure(x, k, next[k])
    {
      next, j := FillEntry(x, next, i, j);
      i := i + 1;
    }
    StrongTableShape(x, next);
  }

  /** The text just before offset `j` matches the first `i` elements of the
      pattern: `text[j-i..j] == pattern[..i]`, element by element. As with
      `OccursAt`, the quantifier is triggered on the pattern side only. */
  ghost predicate Matched<T>(text: seq<T>, pattern: seq<T>, j: int, i: int) {
    && 0 <= i <= j <= |text| && i <= |pattern|
    && forall t {:trigger pattern[t]} :: 0 <= t < i ==> text[j - i + t] == pattern[t]
  }

  /** `Matched` is the window equality it abbreviates. */
  lemma MatchedIsSlice<T>(text: seq<T>, pattern: seq<T>, j: int, i: int)
    requires 0 <= i <= j <= |text| && i <= |pattern|
    ensures Matched(text, pattern, j, i) <==> text[j - i..j] == pattern[..i]
  {
    var window, prefix := text[j - i..j], pattern[..i];
    assert forall t :: 0 <= t < i ==> window[t] == text[j - i + t] && prefix[t] == pattern[t];
    if Matched(text, pattern, j, i) {
      assert window == prefix;
    }
  }

  /** An occurrence at `s` that overlaps the matched part `text[j-i..j]`,
      starts no later than the border `v` would place it, and covers `text[j]`
      must have `pattern[i]` at `text[j]`: either it is the occurrence being
      tried (`s == j - i`), or it makes `j - s` a border of `pattern[..i]`
      longer than `v`, which the strong table says is followed by `pattern[i]`. */
  lemma {:induction false} OccurrenceOverlapsMatch<T>(text: seq<T>, pattern: seq<T>, j: int, i: int, v: int, s: int)
    requires 0 <= i < |pattern| && i <= j < |text|
    requires Matched(text, pattern, j, i)
    requires IsStrongFailure(pattern, i, v)
    requires j - i <= s < j - v && OccursAt(text, pattern, s)
    ensures text[j] == pattern[i]
  {
    var b := j - s;
    assert text[s + b] == pattern[b];
    if b < i {
      var head, tail := pattern[..b], pattern[i - b..i];
      forall t | 0 <= t < b
        ensures head[t] == tail[t]
      {
        assert text[s + t] == pattern[t];
        assert text[j - i + (i - b + t)] == pattern[i - b + t];
      }
      assert head == tail;
      assert IsBorder(pattern, i, b);
      assert !IsStrongBorder(pattern, i, b);
    }
  }

  /** After `text[j-i..j]` matched `pattern[..i]` and `pattern[i]` failed
      against `text[j]`, resuming at the strong failure value `v` keeps the
      matched part consistent and skips no occurrence. */
  lemma {:induction false} MismatchSkipsNothing<T>(text: seq<T>, pattern: seq<T>, j: int, i: int, v: int)
    requires 0 <= i < |pattern| && i <= j < |text|
    requires Matched(text, pattern, j, i)
    requires pattern[i] != text[j]
    requires IsStrongFailure(pattern, i, v)
    ensures v == Sentinel || Matched(text, pattern, j, v)
    ensures forall s :: j - i <= s < j - v ==> !OccursAt(text, pattern, s)
  {
    if v != Sentinel {
      forall t | 0 <= t < v
        ensures text[j - v + t] == pattern[t]
      {
        assert pattern[..v][t] == pattern[i - v..i][t];
        assert text[j - i + (i - v + t)] == pattern[i - v + t];
      }
    }
    forall s | j - i <= s < j - v
      ensures !OccursAt(text, pattern, s)
    {
      if OccursAt(text, pattern, s) {
        OccurrenceOverlapsMatch(text, pattern, j, i, v, s);
      }
    }
  }

  /** A match of `pattern[..i]` ending before `text[j]` grows by one when
      `pattern[i]` equals `text[j]`. */
  lemma ExtendMatch<T>(text: seq<T>, pattern: seq<T>, j: int, i: int)
    requires 0 <= i < |pattern| && i <= j < |text|
    requires Matched(text, pattern, j, i) && pattern[i] == text[j]
    ensures Matched(text, pattern, j + 1, i + 1)
  {
    forall t | 0 <= t < i + 1
      ensures text[j + 1 - (i + 1) + t] == pattern[t]
    {
      if t < i {
        assert text[j - i + t] == pattern[t];
      }
    }
  }

  /** One step of the scan: after the fallback stops at `i` for `text[j]`,
      advancing both pointers keeps the matched window `text[j-i..j]` equal to
      `pattern[..i]`, and no occurrence starts before the window. */
  lemma {:induction false} ScanStep<T>(text: seq<T>, pattern: seq<T>, j: int, i0: int, i: int)
    requires 0 <= i0 < |pattern| && i0 <= j < |text|
    requires forall s :: 0 <= s < j - i0 ==> !OccursAt(text, pattern, s)
    requires Sentinel <= i <= i0
    requires i != Sentinel ==> Matched(text, pattern, j, i) && pattern[i] == text[j]
    requires forall s :: j - i0 <= s < j - i ==> !OccursAt(text, pattern, s)
    ensures Matched(text, pattern, j + 1, i + 1)
    ensures forall s :: 0 <= s < j - i ==> !OccursAt(text, pattern, s)
  {
    if i != Sentinel {
      ExtendMatch(text, pattern, j, i);
    }
    forall s | 0 <= s < j - i
      ensures !OccursAt(text, pattern, s)
    {
      if s < j - i0 {
        assert !OccursAt(text, pattern, s);
      }
    }
  }

  /** The fallback of the scan: starting from a match of `pattern[..i0]`
      ending before `text[j]`, follows the table until `pattern[i]` equals
      `text[j]`, or down to the sentinel. No occurrence starts among the
      offsets passed over. */
  method Fallback<T(==)>(text: seq<T>, pattern: seq<T>, next: seq<int>, j: int, i0: int) returns (i: int)
    requires IsStrongTable(pattern, next)
    requires 0 <= i0 < |pattern| && i0 <= j < |text|
    requires Matched(text, pattern, j, i0)
    ensures Sentinel <= i <= i0
    ensures i != Sentinel ==> Matched(text, pattern, j, i) && pattern[i] == text[j]
    ensures forall s :: j - i0 <= s < j - i ==> !OccursAt(text, pattern, s)
  {
    i := i0;
    while i != Sentinel && pattern[i] != text[j]
      invariant Sentinel <= i <= i0
      invariant i != Sentinel ==> Matched(text, pattern, j, i)
      invariant forall s :: j - i0 <= s < j - i ==> !OccursAt(text, pattern, s)
      decreases i + 1
    {
      MismatchSkipsNothing(text, pattern, j, i, next[i]);
      i := next[i];
    }
  }

  /** A matched window as long as the pattern is an occurrence. */
  lemma WholePatternMatched<T>(text: seq<T>, pattern: seq<T>, j: int)
    requires Matched(text, pattern, j, |pattern|)
    ensures OccursAt(text, pattern, j - |pattern|)
  {
  }

  /** With fewer than `|pattern| - i` elements past an offset, no occurrence
      can start there: the scan may stop at the end of the text. */
  lemma NoRoomAtEnd<T>(text: seq<T>, pattern: seq<T>, i: int)
    requires 0 <= i < |pattern|
    ensures forall s :: |text| - i <= s ==> !OccursAt(text, pattern, s)
  {
  }

  /** One iteration of the scan's outer loop: fall back for `text[j]`, then
      advance both pointers. The window `text[j-i..j]` still equals
      `pattern[..i]` afterwards, and no occurrence starts before it. */
  method Advance<T(==)>(text: seq<T>, pattern: seq<T>, next: seq<int>, j: int, i0: int) returns (i: int)
    requires IsStrongTable(pattern, next)
    requires 0 <= i0 < |pattern| && i0 <= j < |text|
    requires Matched(text, pattern, j, i0)
    requires forall s :: 0 <= s < j - i0 ==> !OccursAt(text, pattern, s)
    ensures 0 <= i <= i0 + 1
    ensures Matched(text, pattern, j + 1, i)
    ensures forall s :: 0 <= s < j + 1 - i ==> !OccursAt(text, pattern, s)
  {
    var k := Fallback(text, pattern, next, j, i0);
    ScanStep(text, pattern, j, i0, k);
    i := k + 1;
  }

  /** The two-pointer scan: `i` walks the pattern, `j` the text. Given the
      failure table of a non-empty pattern shorter than the text, returns the
      leftmost occurrence, or `None` when there is none. */
  method Scan<T(==)>(text: seq<T>, pattern: seq<T>, next: seq<int>) returns (r: Option<nat>)
    requires 0 < |pattern| < |text|
    requires IsStrongTable(pattern, next)
    ensures r.Some? ==> OccursAt(text, pattern, r.value)
    ensures r.Some? ==> forall s :: 0 <= s < r.value ==> !OccursAt(text, pattern, s)
    ensures r.None? ==> forall s :: !OccursAt(text, pattern, s)
  {
    var m, n := |pattern|, |text|;
    var i := 0;
    var j := 0;
    while j < n
      invariant 0 <= i < m && i <= j <= n
      invariant Matched(text, pattern, j, i)
      invariant forall s :: 0 <= s < j - i ==> !OccursAt(text, pattern, s)
    {
      i := Advance(text, pattern, next, j, i);
      j := j + 1;
      if i >= m {
        WholePatternMatched(text, pattern, j);
        return Some(j - i);
      }
    }
    NoRoomAtEnd(text, pattern, i);
    return None;
  }

  /** Returns the offset of the first occurrence of `pattern` in `text`, or
      `None`: exactly the naive leftmost search. The empty pattern is found
      at 0; a pattern at least as long as the text is found (at 0) only when
      it equals the text, and in both cases no table is built. */
  method KnuthMorrisPratt<T(==)>(text: seq<T>, pattern: seq<T>) returns (r: Option<nat>)
    ensures |pattern| == 0 ==> r == Some(0)
    ensures |pattern| >= |text| ==> r == if pattern == text then Some(0) else None
    ensures r.Some? ==> r.value + |pattern| <= |text| && text[r.value..r.value + |pattern|] == pattern
    ensures r.Some? ==> forall s :: 0 <= s < r.value ==> !OccursAt(text, pattern, s)
    ensures r.None? ==> forall s :: !OccursAt(text, pattern, s)
    ensures r == NaiveFind(text, pattern)
  {
    if |pattern| == 0 {
      EmptyPatternAtZero(text);
      return Some(0);
    }
    if |pattern| >= |text| {
      LongPattern(text, pattern);
      return if pattern == text then Some(0) else None;
    }
    var next := PrepareKmp(pattern);
    r := Scan(text, pattern, next);
    if r.Some? {
      OccursAtIsSlice(text, pattern, r.value);
    }
    LeftmostIsReference(text, pattern, r);
  }
}
