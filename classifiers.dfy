/** The per-field match classifiers of the ranking engine: exact, prefix at a word
    boundary, whole word, substring (restricted for short queries) and fuzzy. Every
    classifier lower-cases both operands first. The regular expressions `\bq` and
    `\bq\b` are built from an escaped query, so they test for a literal occurrence of
    the query with boundary assertions; word characters are [A-Za-z0-9_]. */
module Classifiers {
  import opened Strings
  import opened Wrappers
  import Levenshtein

  const ExactMatchPoints: real := 100.0
  const PrefixMatchPoints: real := 80.0
  const FullWordPhrasePoints: real := 60.0
  const SubstringMatchPoints: real := 40.0
  const FuzzyMatchPoints: real := 20.0
  const SemanticMatchPoints: real := 15.0

  /** Queries shorter than this get the restricted substring test. */
  const ShortWordThreshold: nat := 4

  predicate IsWordChar(c: char) {
    ('a' <= c <= 'z') || ('A' <= c <= 'Z') || ('0' <= c <= '9') || c == '_'
  }

  /** The regular-expression assertion `\b` at position `p` of `s`: exactly one of the
      characters on either side is a word character (outside the string counts as a
      non-word character). */
  predicate IsBoundary(s: string, p: int)
    requires 0 <= p <= |s|
  {
    (p > 0 && IsWordChar(s[p - 1])) != (p < |s| && IsWordChar(s[p]))
  }

  /** `hasExactMatch`. */
  predicate HasExactMatch(text: string, query: string) {
    Lower(text) == Lower(query)
  }

  predicate PrefixAt(t: string, q: string, p: int) {
    OccursAt(t, q, p) && IsBoundary(t, p)
  }

  predicate WholeWordAt(t: string, q: string, p: int) {
    OccursAt(t, q, p) && IsBoundary(t, p) && IsBoundary(t, p + |q|)
  }

  /** `hasPrefixMatch`: the test of `\b<query>` against the lower-cased text. */
  predicate HasPrefixMatch(text: string, query: string) {
    var t, q := Lower(text), Lower(query);
    exists p | 0 <= p <= |t| - |q| :: PrefixAt(t, q, p)
  }

  /** `hasWholeWordMatch`: the test of `\b<query>\b` against the lower-cased text. */
  predicate HasWholeWordMatch(text: string, query: string) {
    var t, q := Lower(text), Lower(query);
    exists p | 0 <= p <= |t| - |q| :: WholeWordAt(t, q, p)
  }

  /** Every whole-word match is also a prefix match, so the whole-word tier, tried
      after the prefix tier, never fires. */
  lemma WholeWordImpliesPrefix(text: string, query: string)
    requires HasWholeWordMatch(text, query)
    ensures HasPrefixMatch(text, query)
  {
    var t, q := Lower(text), Lower(query);
    var p :| 0 <= p <= |t| - |q| && WholeWordAt(t, q, p);
    assert PrefixAt(t, q, p);
  }

  /** A word of a short query's field passes when it starts with the query, ends with
      it, or contains it while being at most three characters longer. */
  predicate ShortWordPasses(word: string, q: string, queryLength: nat) {
    StartsWith(word, q) || EndsWith(word, q) || (Contains(word, q) && |word| <= queryLength + 3)
  }

  /** `hasSubstringMatch`: the lower-cased text contains the lower-cased query, and,
      for a query shorter than four characters, some whitespace-separated word of the
      text passes `ShortWordPasses`. */
  predicate HasSubstringMatch(text: string, query: string) {
    var t, q := Lower(text), Lower(query);
    && Contains(t, q)
    && (|query| < ShortWordThreshold ==>
          exists w | w in SplitWhitespace(t) :: ShortWordPasses(w, q, |query|))
  }

  /** The second, "meaningful substring" test that the analyzer applies to a short
      query after `hasSubstringMatch` has passed; it measures the length difference
      with an absolute value. */
  predicate HasMeaningfulSubstring(text: string, query: string) {
    var q := Lower(query);
    exists w | w in SplitWhitespace(Lower(text)) ::
      || StartsWith(w, q) || EndsWith(w, q)
      || (Contains(w, q) && -3 <= |w| - |query| <= 3)
  }

  /** The analyzer's second test can never fail once `hasSubstringMatch` has passed:
      a word containing the query is at least as long as it, so the absolute-value
      bound is the same as `|word| <= |query| + 3`. */
  lemma SubstringImpliesMeaningful(text: string, query: string)
    requires |query| < ShortWordThreshold && HasSubstringMatch(text, query)
    ensures HasMeaningfulSubstring(text, query)
  {
    var t, q := Lower(text), Lower(query);
    var w :| w in SplitWhitespace(t) && ShortWordPasses(w, q, |query|);
    if Contains(w, q) {
      ContainsLength(w, q);
    }
  }

  /** A short query with whitespace inside never passes the substring test, since the
      words it would have to fit in contain no whitespace. */
  lemma ShortQueryWithSpaceIsNoSubstring(text: string, query: string, k: nat)
    requires |query| < ShortWordThreshold && k < |query| && IsJsSpace(query[k])
    ensures !HasSubstringMatch(text, query)
  {
    var t, q := Lower(text), Lower(query);
    assert IsJsSpace(q[k]);
    forall w | w in SplitWhitespace(t) ensures !ShortWordPasses(w, q, |query|) {
      if StartsWith(w, q) || EndsWith(w, q) {
        StartsWithContains(w, q);
      }
    }
  }

  /** `FUZZY_LENGTH_MULTIPLIERS` looked up by query length: no entry for lengths 0
      and 1 (the lookup is `undefined`), 0 edits for length 2, 1 edit for lengths 3
      and 4, and 2 edits for longer queries. */
  function MaxFuzzyDistance(queryLength: nat): Option<nat> {
    if queryLength <= 1 then None
    else if queryLength == 2 then Some(0)
    else if queryLength <= 4 then Some(1)
    else Some(2)
  }

  /** The candidate score of one word: `20 * (1 - d / max(|word|, |q|))` when its
      edit distance `d` to the query is within the budget. Comparing with `undefined`
      is false, so a missing budget admits no word. */
  function WordFuzzyScore(word: string, q: string): Option<real> {
    var budget := MaxFuzzyDistance(|q|);
    var d := Levenshtein.Distance(word, q);
    if budget.Some? && d <= budget.value then
      var longest := if |word| >= |q| then |word| else |q|;
      Some(FuzzyMatchPoints * (1.0 - (d as real) / (longest as real)))
    else None
  }

  function Max(x: real, y: real): real {
    if x >= y then x else y
  }

  /** The best candidate over the first words, starting from 0: the value the loop of
      `calculateFuzzyScore` holds in `bestScore`. */
  function BestFuzzy(words: seq<string>, q: string): real {
    if words == [] then 0.0
    else
      var best := BestFuzzy(words[..|words| - 1], q);
      match WordFuzzyScore(words[|words| - 1], q)
      case Some(s) => Max(best, s)
      case None => best
  }

  /** `calculateFuzzyScore` as a value. */
  function FuzzyScore(text: string, query: string): real {
    var t, q := Lower(text), Lower(query);
    if MaxFuzzyDistance(|q|) == Some(0) then 0.0
    else BestFuzzy(SplitWhitespace(t), q)
  }

  /** `calculateFuzzyScore`: loops over the words of the text, keeping the best score. */
  method CalculateFuzzyScore(text: string, query: string) returns (bestScore: real)
    ensures bestScore == FuzzyScore(text, query)
  {
    var lowerText, lowerQuery := Lower(text), Lower(query);
    var maxDistance := MaxFuzzyDistance(|lowerQuery|);
    if maxDistance == Some(0) {
      return 0.0;
    }
    var words := SplitWhitespace(lowerText);
    bestScore := 0.0;
    var k := 0;
    while k < |words|
      invariant 0 <= k <= |words|
      invariant bestScore == BestFuzzy(words[..k], lowerQuery)
    {
      var word := words[k];
      var distance := Levenshtein.LevenshteinDistance(word, lowerQuery);
      if maxDistance.Some? && distance <= maxDistance.value {
        var longest := if |word| >= |lowerQuery| then |word| else |lowerQuery|;
        var similarity := 1.0 - (distance as real) / (longest as real);
        var score := FuzzyMatchPoints * similarity;
        bestScore := Max(bestScore, score);
      }
      assert words[..k + 1][..k] == words[..k];
      k := k + 1;
    }
    assert words[..k] == words;
  }

  /** A word within the budget of a query of at least three characters scores
      strictly between 0 and 20 inclusive of 20. */
  lemma WordFuzzyScoreRange(word: string, q: string)
    requires |q| >= 3
    requires WordFuzzyScore(word, q).Some?
    ensures 0.0 < WordFuzzyScore(word, q).value <= FuzzyMatchPoints
  {
    var d := Levenshtein.Distance(word, q);
    var longest := if |word| >= |q| then |word| else |q|;
    assert d <= 2 < 3 <= longest;
    RatioBelowOne(d as real, longest as real);
  }

  lemma RatioBelowOne(d: real, l: real)
    requires 0.0 <= d < l
    ensures 0.0 < FuzzyMatchPoints * (1.0 - d / l) <= FuzzyMatchPoints
  {
    assert d / l * l == d;
    assert 0.0 <= d / l < 1.0;
  }

  lemma {:induction false} BestFuzzyRange(words: seq<string>, q: string)
    requires |q| >= 3
    ensures 0.0 <= BestFuzzy(words, q) <= FuzzyMatchPoints
    ensures BestFuzzy(words, q) > 0.0 <==>
              exists w :: w in words && WordFuzzyScore(w, q).Some?
  {
    if words != [] {
      var init := words[..|words| - 1];
      var last := words[|words| - 1];
      BestFuzzyRange(init, q);
      if WordFuzzyScore(last, q).Some? {
        WordFuzzyScoreRange(last, q);
      }
      assert words == init + [last];
      assert forall w :: w in words <==> w in init || w == last;
    }
  }

  /** The best score is the maximum over the words within budget: it is at least the
      score of each such word, and a positive best is the score of one of them. */
  lemma {:induction false} BestFuzzyIsMax(words: seq<string>, q: string)
    ensures forall w :: w in words && WordFuzzyScore(w, q).Some? ==> WordFuzzyScore(w, q).value <= BestFuzzy(words, q)
    ensures BestFuzzy(words, q) > 0.0 ==>
              exists w :: w in words && WordFuzzyScore(w, q) == Some(BestFuzzy(words, q))
  {
    if words != [] {
      var init := words[..|words| - 1];
      var last := words[|words| - 1];
      BestFuzzyIsMax(init, q);
      assert words == init + [last];
      assert forall w :: w in words <==> w in init || w == last;
    }
  }

  /** `calculateFuzzyScore` is 0 for queries of at most two characters (no budget
      entry, or a budget of 0), and otherwise lies in [0, 20] and is positive exactly
      when some word of the text is within the edit budget of the query. */
  lemma FuzzyScoreSpec(text: string, query: string)
    ensures |query| <= 2 ==> FuzzyScore(text, query) == 0.0
    ensures 0.0 <= FuzzyScore(text, query) <= FuzzyMatchPoints
    ensures |query| >= 3 ==>
      (FuzzyScore(text, query) > 0.0 <==>
         exists w :: w in SplitWhitespace(Lower(text)) &&
           Levenshtein.Distance(w, Lower(query)) <= (if |query| <= 4 then 1 else 2))
  {
    var t, q := Lower(text), Lower(query);
    var words := SplitWhitespace(t);
    if |q| <= 1 {
      NoBudgetNoScore(words, q);
    } else if |q| >= 3 {
      BestFuzzyRange(words, q);
    }
  }

  /** The fuzzy score lies in [0, 20]. */
  lemma FuzzyScoreBounds(text: string, query: string)
    ensures 0.0 <= FuzzyScore(text, query) <= FuzzyMatchPoints
  {
    FuzzyScoreSpec(text, query);
  }

  lemma {:induction false} NoBudgetNoScore(words: seq<string>, q: string)
    requires |q| <= 1
    ensures BestFuzzy(words, q) == 0.0
  {
    if words != [] {
      NoBudgetNoScore(words[..|words| - 1], q);
    }
  }
}
