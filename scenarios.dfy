/** The crate's test cases, stated about the model. */
module Scenarios {
  import opened Distance
  import opened Levenshtein
  import Utf8

  // The two words come in as parameters pinned by requires, so that the verifier
  // does not try to evaluate Lev on literal arguments.

  /** At most three edits: delete the final g, keep n, substitute i by e,
      keep "itt", substitute s by k. */
  lemma SittingKittenAtMostThree(a: string, b: string)
    requires a == "sitting" && b == "kitten"
    ensures Lev(a, b) <= 3
  {
    LevInitLeft(a, b);
    var a1, b1, n := Init(a), b[..5], b[5..];
    assert a1 == a1[..5] + n && b == b1 + n;
    LevCommonSuffix(a1[..5], b1, n);
    var a2, b2 := a1[..5], b1;
    assert Lev(a2, b2) <= Lev(Init(a2), Init(b2)) + 1;
    var itt := b[1..4];
    assert Init(a2) == a[..1] + itt && Init(b2) == b[..1] + itt;
    LevCommonSuffix(a[..1], b[..1], itt);
    LevBounds(a[..1], b[..1]);
  }

  /** At least three edits: s, one of the two i and g have no counterpart in "kitten". */
  lemma SittingKittenAtLeastThree(a: string, b: string)
    requires a == "sitting" && b == "kitten"
    ensures 3 <= Lev(a, b)
  {
    LevAtLeastUnmatched(a, b);
    SittingKittenUnmatched(a, b);
  }

  lemma SittingKittenUnmatched(a: string, b: string)
    requires a == "sitting" && b == "kitten"
    ensures multiset(a) - multiset(b) == multiset{'s', 'i', 'g'}
  {
    assert multiset(a) == multiset{'s', 'i', 't', 't', 'i', 'n', 'g'};
    assert multiset(b) == multiset{'k', 'i', 't', 't', 'e', 'n'};
    LettersUnmatched(multiset(a), multiset(b));
  }

  lemma LettersUnmatched(x: multiset<char>, y: multiset<char>)
    requires x == multiset{'s', 'i', 't', 't', 'i', 'n', 'g'}
    requires y == multiset{'k', 'i', 't', 't', 'e', 'n'}
    ensures x - y == multiset{'s', 'i', 'g'}
  {
  }

  /** "sitting" and "kitten" in byte mode are three edits apart. */
  lemma SittingKitten()
    ensures Reported("sitting", "kitten", true) == 3
  {
    assert Utf8.IsAscii("sitting") && Utf8.IsAscii("kitten");
    ModesAgreeOnAscii("sitting", "kitten");
    SittingKittenAtMostThree("sitting", "kitten");
    SittingKittenAtLeastThree("sitting", "kitten");
  }

  /** An ASCII word against the empty string is as far as it is long. */
  lemma LevenshteinEmpty()
    ensures Reported("levenshtein", "", true) == 11
  {
    assert Utf8.IsAscii("levenshtein");
    Utf8.EncodeAscii("levenshtein");
  }

  /** Two ASCII sentences: byte mode and char mode agree. */
  lemma AsciiNoDifference()
    ensures Reported("If I were a wise man", "I would do my part", true)
         == Reported("If I were a wise man", "I would do my part", false)
  {
    assert Utf8.IsAscii("If I were a wise man") && Utf8.IsAscii("I would do my part");
    ModesAgreeOnAscii("If I were a wise man", "I would do my part");
  }

  // The Persian word shahnama with and without the alef after its first letter:
  // sheen, alef, heh, noon, alef, meem, heh against sheen, heh, noon, alef, meem, heh.
  const SHEEN: string := "\U{0634}"
  const ALEF: string := "\U{0627}"
  const NAMEH: string := "\U{0647}\U{0646}\U{0627}\U{0645}\U{0647}"

  /** In char mode the two spellings differ by the one deleted alef. */
  lemma ShahnamaChars()
    ensures Reported(SHEEN + ALEF + NAMEH, SHEEN + NAMEH, false) == 1
  {
    LevInsertBlock(SHEEN, ALEF, NAMEH);
  }

  /** In byte mode the deleted alef counts twice: it takes two bytes in UTF-8. */
  lemma ShahnamaBytes()
    ensures Reported(SHEEN + ALEF + NAMEH, SHEEN + NAMEH, true) == 2
  {
    Utf8.EncodeAppend(SHEEN + ALEF, NAMEH);
    Utf8.EncodeAppend(SHEEN, ALEF);
    Utf8.EncodeAppend(SHEEN, NAMEH);
    LevInsertBlock(Utf8.Encode(SHEEN), Utf8.Encode(ALEF), Utf8.Encode(NAMEH));
    assert |Utf8.Encode(ALEF)| == 2;
  }

  /** Byte mode and char mode do not agree on all text. */
  lemma ModesCanDiffer()
    ensures exists a, b :: Reported(a, b, true) != Reported(a, b, false)
  {
    ShahnamaChars();
    ShahnamaBytes();
    var a, b := SHEEN + ALEF + NAMEH, SHEEN + NAMEH;
    assert Reported(a, b, true) != Reported(a, b, false);
  }
}
