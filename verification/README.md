# Knuth-Morris-Pratt substring search, modelled in Dafny

This project models the `knuth_morris_pratt` crate. The crate has one public
function, `knuth_morris_pratt(text, pattern)`. It returns the offset of the
first occurrence of `pattern` in `text`, or `None`, for slices of any element
type with `PartialEq`. A private helper, `prepare_kmp`, builds the optimised
("strong") failure table that the search consumes.

Elements are a generic `T(==)` and slices are `seq<T>`. The sentinel `!0` is
the integer `-1` (`Kmp.Sentinel`). `wrapping_add(1)` becomes `+ 1`, which takes
the sentinel to 0. `next.get(j)` returning `None` becomes the test
`j == Sentinel`. The model also proves that every other index lies in range.

Modules:

- `Wrappers`: the `Option` result type.
- `Borders`: borders of a prefix of the pattern, and the three facts about
  them that border chasing relies on.
- `Reference`: the reference behaviour, a naive leftmost search
  (`NaiveFind`). It stands in for `str::find`, which the tests use as the
  oracle.
- `Kmp`: the failure table (`PrepareKmp`) and the search (`KnuthMorrisPratt`).
  These are the two functions of `src/lib.rs`, written as methods with loop
  invariants. Each outer loop body is its own method (`FillEntry`,
  `Advance`), and so is each inner `while let` loop (`ChaseBorder`,
  `Fallback`). The scan that follows the table build is `Scan`.
  An occurrence (`Reference.OccursAt`) and the scan's matched window
  (`Kmp.Matched`) are stated element by element. `Reference.OccursAtIsSlice`
  and `Kmp.MatchedIsSlice` prove them equal to the slice equalities
  `text[k..k+m] == pattern` and `text[j-i..j] == pattern[..i]`.
- `KmpExamples`: the concrete searches of the `test_stuff` unit test.

The failure table has an independent declarative definition,
`Kmp.IsStrongFailure`. Entry `i` is the longest proper border `k` of
`pattern[..i]` such that `pattern[k] != pattern[i]`, or the sentinel if no such
border exists. At `i == |pattern|` every proper border qualifies. This
definition fixes every entry. It also implies the table's shape, its range, the
border property and the "strong" property.

## Model

| member | source | states |
|---|---|---|
| `Kmp.PrepareKmp` | src/lib.rs:1-24 | The table has `m+1` entries. `next[0]` is the sentinel. Each `next[i]` with `i >= 1` is the sentinel or lies in `0..i`, so every later read of `next` and of the pattern is in bounds. A non-sentinel `next[i]` is a proper border of `pattern[..i]`. For `i < m`, `pattern[next[i]] != pattern[i]`. Each entry equals the longest such border, so every entry is assigned, none keeps its zero fill, and the loops terminate |
| `Kmp.StrongTableShape` | src/lib.rs:8-23 | A strong table has the sentinel at 0. Every later entry is the sentinel or a proper border below its index. For `i < m`, the element after the border differs from `x[i]` |
| `Kmp.ChaseBorder` | src/lib.rs:10-15 | The inner chase starts from the longest border of `x[..i]`. It stops at the longest border that `x[i]` extends, or at the sentinel when no border is extended. It reads only entries below `i` |
| `Kmp.StrongFailureUnique` | src/lib.rs:1-2 | Each prefix length has at most one strong failure value, so the shift table depends on the pattern alone |
| `Kmp.FallbackKeepsCandidates` | src/lib.rs:10-15 | A fallback `j := next[j]` after `x[i] != x[j]` moves to a strictly shorter border of `x[..i]`, or to the sentinel. It skips no border that `x[i]` could extend |
| `Kmp.ExtendLongestBorder` | src/lib.rs:16-17 | After the chase, `j + 1` is the longest proper border of `x[..i+1]`. This includes the case where the sentinel becomes 0 |
| `Kmp.InheritFailure` | src/lib.rs:18-19 | If `x[i] == x[j]` for the longest border `j`, then `next[i] = next[j]` is the strong failure value of `i` (the compression step) |
| `Kmp.StoreEntry` | src/lib.rs:18-22 | Writing the strong failure value of `i` keeps every entry below `i` correct, so the table is correct up to `i` |
| `Kmp.FillEntry` | src/lib.rs:10-22 | One pass of the builder's outer loop keeps the entries up to `i0`. It fills entry `i0+1` with its strong failure value and leaves `j` at the longest proper border of `x[..i0+1]` |
| `Kmp.LongestIsStrong` | src/lib.rs:18-22 | At the end of the pattern, or when `x[i] != x[j]`, the longest border `j` itself is the strong failure value |
| `Borders.BorderExtend` | src/lib.rs:10-17 | `k+1` is a border of `x[..i+1]` exactly when `k` is a border of `x[..i]` and `x[k] == x[i]` |
| `Borders.BorderTrans` | src/lib.rs:10-15 | A border of a border of `x[..i]` is itself a border of `x[..i]`, so following `next` stays on borders |
| `Borders.BorderOfBorder` | src/lib.rs:10-15 | The shorter of two borders of `x[..i]` is a border of the longer one |
| `Borders.EmptyBorder` | src/lib.rs:17 | Every non-empty prefix has the empty border, so `j` restarts at 0 after the sentinel |
| `Kmp.OccurrenceOverlapsMatch` | src/lib.rs:48-53 | An occurrence that starts within the matched window, before the resume point chosen by `next[i]`, would need `pattern[i]` at `text[j]` |
| `Kmp.MismatchSkipsNothing` | src/lib.rs:48-53 | When `pattern[i] != text[j]`, falling back to `next[i]` keeps `text[j-next[i]..j] == pattern[..next[i]]` and passes over no occurrence |
| `Kmp.Fallback` | src/lib.rs:48-53 | The inner fallback of the scan ends at the sentinel, or at an `i` where `pattern[..i]` still matches and `pattern[i] == text[j]`. No occurrence starts at any offset it passes over |
| `Kmp.ExtendMatch` | src/lib.rs:54-55 | After `pattern[i] == text[j]`, advancing both pointers extends the matched window by one element |
| `Kmp.MatchedIsSlice` | src/lib.rs:47-55 | The scan's matched-window fact, stated element by element, holds exactly when `text[j-i..j] == pattern[..i]` |
| `Kmp.ScanStep` | src/lib.rs:47-55 | After the fallback stops and both pointers advance, the matched window still equals a pattern prefix, and no occurrence starts before the window |
| `Kmp.Advance` | src/lib.rs:48-55 | One pass of the scan's outer loop ends with `text[j+1-i..j+1] == pattern[..i]` for the new `i`, with `i` at most one more than before. No occurrence starts before the window |
| `Kmp.WholePatternMatched` | src/lib.rs:56-57 | A matched window as long as the pattern is an occurrence, so `Some(j - i)` is sound |
| `Kmp.NoRoomAtEnd` | src/lib.rs:47-61 | When the text runs out with fewer than `m` elements matched, no occurrence starts in the unread tail, so the final `None` is correct |
| `Kmp.Scan` | src/lib.rs:45-61 | The scan needs a strong table of a non-empty pattern shorter than the text. It returns the leftmost occurrence when one exists, and `None` only when there is none |
| `Kmp.KnuthMorrisPratt` | src/lib.rs:26-62 | An empty pattern gives `Some(0)`. If `|pattern| >= |text|`, the result is `Some(0)` exactly when `pattern == text`, and `None` otherwise. A `Some(k)` result is an occurrence with `k + |pattern| <= |text|`, and no smaller offset is one. `None` means there is no occurrence. The result always equals the naive leftmost search |
| `Reference.OccursAtIsSlice` | src/lib.rs:26-28 | An occurrence at `k`, stated element by element, holds exactly when `text[k..k+m] == pattern` |
| `Reference.FindFrom` | src/lib.rs:70-76 | The naive search from offset `k` returns the first occurrence at or after `k`, or `None` when there is none from `k` on |
| `Reference.NaiveFind` | tests/quick.rs:141-150 | The reference search returns the leftmost occurrence. It returns `None` exactly when the pattern occurs nowhere |
| `Reference.LeftmostIsReference` | src/lib.rs:26-28 | Any answer that is a sound, leftmost occurrence, or a `None` with no occurrence anywhere, equals the reference answer |
| `Reference.EmptyPatternAtZero` | src/lib.rs:32-34 | The reference finds the empty pattern at offset 0 of every text |
| `Reference.LongPattern` | src/lib.rs:35-41 | The reference finds a pattern at least as long as the text only when it equals the text, and then at 0 |
| `Reference.SubstringIsFound` | tests/quick.rs:166-184 | Every substring `text[lo..hi]` is found in `text`, at offset `lo` or earlier |
| `Reference.PiecesOfFoundPatternAreFound` | tests/quick.rs:152-164 | If a pattern is found in a text, every substring of the pattern is found there too, no later than its place inside the first occurrence |
| `KmpExamples.SubstringExample` | src/lib.rs:82 | `"string"` first occurs in `"substrinstring"` at offset 8 |
| `KmpExamples.XyzExamples` | src/lib.rs:78-81 | `"a"` is absent from `"xyz"`. `"x"`, `"y"` and `"z"` are found at 0, 1 and 2 |
| `KmpExamples.GreekExample` | src/lib.rs:83 | The UTF-8 bytes of `"αβ"` first occur in those of `"abcαaαβγ"` at byte offset 6 |
| `KmpExamples.IntegerExample` | src/lib.rs:85-87 | `[1729, 3]` first occurs in `[1729, 1, 1729, 3, 4]` at offset 2 |
| `KmpExamples.TestStuff` | src/lib.rs:65-88 | Each search of the unit test returns the expected result: `None` for `"G"`/`"GCAGAGAG"`, then `None`, `Some(0)`, `Some(1)`, `Some(2)`, `Some(8)`, `Some(6)` and `Some(2)` |

## Left out

- Kmp.KnuthMorrisPratt: no contract states that the two trivial cases build no table. In the body those branches return before `PrepareKmp` is called, as in the code.
- Kmp.PrepareKmp: the code fills a `&mut [usize]` buffer that the caller allocated and zero-filled (`vec![0; m+1]`). The model allocates that buffer inside `PrepareKmp` and returns it as a sequence. The contract fixes every entry, so the zero fill cannot be seen.
- Machine words: `usize` overflow and the `!0` / `wrapping_add` encoding are not modelled bit for bit. Indices are unbounded integers, and the sentinel is `-1`.
- Running time: the amortised linear bound on element comparisons is not stated. Only termination of the nested loops is proved.
- There is no custom-equality entry point and no stack-buffer path for small patterns. The code compares with `PartialEq` only and always allocates the table with `vec!`.
- Long patterns: the code goes to its trivial branch when `|pattern| >= |text|`, not only when the pattern is strictly longer. It then answers `Some(0)` if the pattern equals the text. The model follows the code.
- The quickcheck generators and adaptors in tests/quick.rs (`Short`, `Text`, `SimpleText`, `ShortText`) are left out. So are the `odds` substring helper and the `contains` / `find` wrappers. Their behaviour is the library call on bytes, which `Reference.NaiveFind` and the lemmas about it cover.
- `contains_rev` / `rfind` are stubs that abort, and their test is ignored. There is no reverse search to model.
- Strings and UTF-8: the tests search strings through `as_bytes()`, so their offsets are byte offsets. The one non-ASCII example is written out as its bytes.
- The `println!` in the unit test only prints output.
- Element equality: Rust's `PartialEq` is modelled by Dafny's `==`, which is an equivalence. Element types whose `PartialEq` is not reflexive (such as floats with NaN) are outside the proof.
