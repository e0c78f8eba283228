/**
 The concrete searches of the library's unit test `test_stuff`. Strings are
 searched as their UTF-8 bytes there, so offsets are byte offsets; for the
 ASCII strings bytes and characters coincide, and the one non-ASCII text is
 written out as its bytes.
 */
module KmpExamples {
  import opened Wrappers
  import opened Reference
  import opened Kmp

  /** `"abcαaαβγ"` as UTF-8 bytes: α is CE B1, β is CE B2, γ is CE B3. */
  const GreekText: seq<int> := [0x61, 0x62, 0x63, 0xCE, 0xB1, 0x61, 0xCE, 0xB1, 0xCE, 0xB2, 0xCE, 0xB3]

  /** `"αβ"` as UTF-8 bytes. */
  const GreekPattern: seq<int> := [0xCE, 0xB1, 0xCE, 0xB2]

  /** One differing element rules out an occurrence at `s`. */
  lemma MismatchRulesOut<T>(text: seq<T>, pattern: seq<T>, s: int, d: int)
    requires 0 <= s && 0 <= d < |pattern| && s + d < |text|
    requires text[s + d] != pattern[d]
    ensures !OccursAt(text, pattern, s)
  {
  }

  /** `"string"` first occurs in `"substrinstring"` at offset 8. */
  lemma SubstringExample()
    ensures NaiveFind("substrinstring", "string") == Some(8)
  {
    var t, p := "substrinstring", "string";
    assert t[8..14] == p;
    MismatchRulesOut(t, p, 0, 1);
    MismatchRulesOut(t, p, 1, 0);
    MismatchRulesOut(t, p, 2, 0);
    MismatchRulesOut(t, p, 3, 5);
    MismatchRulesOut(t, p, 4, 0);
    MismatchRulesOut(t, p, 5, 0);
    MismatchRulesOut(t, p, 6, 0);
    MismatchRulesOut(t, p, 7, 0);
    LeftmostIsReference(t, p, Some(8));
  }

  /** `"a"` is absent from `"xyz"`; each of its letters is found at its own offset. */
  lemma XyzExamples()
    ensures NaiveFind("xyz", "a") == None
    ensures NaiveFind("xyz", "x") == Some(0)
    ensures NaiveFind("xyz", "y") == Some(1)
    ensures NaiveFind("xyz", "z") == Some(2)
  {
    var t := "xyz";
    MismatchRulesOut(t, "a", 0, 0);
    MismatchRulesOut(t, "a", 1, 0);
    MismatchRulesOut(t, "a", 2, 0);
    LeftmostIsReference(t, "a", None);
    assert t[0..1] == "x";
    LeftmostIsReference(t, "x", Some(0));
    assert t[1..2] == "y";
    MismatchRulesOut(t, "y", 0, 0);
    LeftmostIsReference(t, "y", Some(1));
    assert t[2..3] == "z";
    MismatchRulesOut(t, "z", 0, 0);
    MismatchRulesOut(t, "z", 1, 0);
    LeftmostIsReference(t, "z", Some(2));
  }

  /** The bytes of `"αβ"` first occur in those of `"abcαaαβγ"` at byte offset 6. */
  lemma GreekExample()
    ensures NaiveFind(GreekText, GreekPattern) == Some(6)
  {
    var t, p := GreekText, GreekPattern;
    assert t[6..10] == p;
    MismatchRulesOut(t, p, 0, 0);
    MismatchRulesOut(t, p, 1, 0);
    MismatchRulesOut(t, p, 2, 0);
    MismatchRulesOut(t, p, 3, 2);
    MismatchRulesOut(t, p, 4, 0);
    MismatchRulesOut(t, p, 5, 0);
    LeftmostIsReference(t, p, Some(6));
  }

  /** `[1729, 3]` first occurs in `[1729, 1, 1729, 3, 4]` at offset 2. */
  lemma IntegerExample()
    ensures NaiveFind([1729, 1, 1729, 3, 4], [1729, 3]) == Some(2)
  {
    var t, p := [1729, 1, 1729, 3, 4], [1729, 3];
    assert t[2..4] == p;
    MismatchRulesOut(t, p, 0, 1);
    MismatchRulesOut(t, p, 1, 0);
    LeftmostIsReference(t, p, Some(2));
  }

  /** Runs every search of the unit test and returns the results it expects. */
  method TestStuff() returns (g: Option<nat>, a: Option<nat>, x: Option<nat>, y: Option<nat>,
                              z: Option<nat>, sub: Option<nat>, greek: Option<nat>, ints: Option<nat>)
    ensures g == None
    ensures a == None && x == Some(0) && y == Some(1) && z == Some(2)
    ensures sub == Some(8)
    ensures greek == Some(6)
    ensures ints == Some(2)
  {
    g := KnuthMorrisPratt("G", "GCAGAGAG");
    a := KnuthMorrisPratt("xyz", "a");
    x := KnuthMorrisPratt("xyz", "x");
    y := KnuthMorrisPratt("xyz", "y");
    z := KnuthMorrisPratt("xyz", "z");
    XyzExamples();
    sub := KnuthMorrisPratt("substrinstring", "string");
    SubstringExample();
    greek := KnuthMorrisPratt(GreekText, GreekPattern);
    GreekExample();
    ints := KnuthMorrisPratt([1729, 1, 1729, 3, 4], [1729, 3]);
    IntegerExample();
  }
}
