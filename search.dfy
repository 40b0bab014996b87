/** The search orchestrator `performEnhancedSearch` and the aggregation
    `getSearchStats`. The orchestrator analyzes every candidate, keeps those with a
    positive score, sorts them stably by descending score and returns one page; for
    queries longer than two characters it consults and fills the module-wide result
    cache first. */
module Search {
  import opened Strings
  import opened Wrappers
  import opened Records
  import opened Analyzer
  import opened SearchCache
  import Ranking
  import Classifiers
  import Semantic

  /** `SEARCH_CONFIG.MAX_RESULTS`, the default page size. */
  const MaxResults: nat := 100

  /** Queries whose trimmed length is at most this bypass the cache. */
  const CacheMinQueryLength: nat := 2

  /** The `options` argument; `None` is an omitted property. */
  datatype SearchOptions = SearchOptions(
    limit: Option<nat>,
    offset: Option<nat>,
    includeFuzzy: Option<bool>,
    includeSemantic: Option<bool>)

  function GetOr<T>(o: Option<T>, default: T): T {
    if o.Some? then o.value else default
  }

  datatype MatchResult = MatchResult(entry: Record, score: real, matchType: MatchType, matchedFields: seq<string>)

  function ScoreOf(m: MatchResult): real { m.score }

  /** One candidate with its analysis spread in. */
  function Analyzed(entry: Record, query: string, fuzzy: bool, semantic: bool, decay: nat -> real): MatchResult {
    var a := AnalyzeEntry(entry, query, AnalyzeOptions(fuzzy, semantic), decay);
    MatchResult(entry, a.score, a.matchType, a.matchedFields)
  }

  /** `entries.map(...)` with the analyzer. */
  function AnalyzeAll(entries: seq<Record>, query: string, fuzzy: bool, semantic: bool, decay: nat -> real): (rs: seq<MatchResult>)
    ensures |rs| == |entries|
    ensures forall k :: 0 <= k < |rs| ==> rs[k] == Analyzed(entries[k], query, fuzzy, semantic, decay)
  {
    if entries == [] then []
    else
      var init := AnalyzeAll(entries[..|entries| - 1], query, fuzzy, semantic, decay);
      init + [Analyzed(entries[|entries| - 1], query, fuzzy, semantic, decay)]
  }

  /** `.filter((result) => result.score > 0)`. */
  function Positive(rs: seq<MatchResult>): (ps: seq<MatchResult>)
    ensures forall m :: m in ps <==> m in rs && m.score > 0.0
    ensures |ps| <= |rs|
    ensures forall v :: v > 0.0 ==> Ranking.WithKey(ps, ScoreOf, v) == Ranking.WithKey(rs, ScoreOf, v)
  {
    if rs == [] then []
    else
      var rest := Positive(rs[1..]);
      assert forall m :: m in rs <==> m == rs[0] || m in rs[1..];
      if rs[0].score > 0.0 then [rs[0]] + rest else rest
  }

  /** The matching candidates in ranked order, before paging. */
  function Ranked(entries: seq<Record>, query: string, fuzzy: bool, semantic: bool, decay: nat -> real): seq<MatchResult> {
    Ranking.SortDesc(Positive(AnalyzeAll(entries, query, fuzzy, semantic, decay)), ScoreOf)
  }

  /** The results computed without the cache. */
  function FreshResults(entries: seq<Record>, query: string, fuzzy: bool, semantic: bool, limit: nat, offset: nat, decay: nat -> real): seq<MatchResult> {
    Ranking.Page(Ranked(entries, query, fuzzy, semantic, decay), offset, limit)
  }

  /** The answer to a blank query: every candidate, in order, unscored. */
  function NoQueryResults(entries: seq<Record>): (rs: seq<MatchResult>)
    ensures |rs| == |entries|
    ensures forall k :: 0 <= k < |rs| ==>
      rs[k].entry == entries[k] && rs[k].score == 0.0 && rs[k].matchType == NoQuery && rs[k].matchedFields == []
  {
    if entries == [] then []
    else NoQueryResults(entries[..|entries| - 1]) + [MatchResult(entries[|entries| - 1], 0.0, NoQuery, [])]
  }

  /** The cache key: lower-cased trimmed query, both flags, limit and offset, joined by
      underscores. The candidate list is not part of it. */
  function CacheKey(trimmed: string, fuzzy: bool, semantic: bool, limit: nat, offset: nat): string {
    Lower(trimmed) + "_" + BoolToString(fuzzy) + "_" + BoolToString(semantic)
      + "_" + NatToDecimal(limit) + "_" + NatToDecimal(offset)
  }

  /** `performEnhancedSearch` as a transition of the cache's entry list, with its result. */
  function SearchStep(es: seq<CacheEntry<MatchResult>>, entries: seq<Record>, query: string, options: SearchOptions, now: int, decay: nat -> real)
    : (seq<CacheEntry<MatchResult>>, seq<MatchResult>)
  {
    var limit := GetOr(options.limit, MaxResults);
    var offset := GetOr(options.offset, 0);
    var fuzzy := GetOr(options.includeFuzzy, true);
    var semantic := GetOr(options.includeSemantic, true);
    var trimmed := Trim(query);
    if trimmed == [] then (es, NoQueryResults(entries))
    else
      var key := CacheKey(trimmed, fuzzy, semantic, limit, offset);
      var computed := FreshResults(entries, trimmed, fuzzy, semantic, limit, offset, decay);
      if |trimmed| > CacheMinQueryLength then
        var got := GetStep(es, key, now);
        if got.1.Some? then (got.0, got.1.value)
        else (SetStep(got.0, key, computed, now), computed)
      else (es, computed)
  }

  /** The uncached part of `performEnhancedSearch`: analyze every candidate, keep the
      positive scores, sort and slice. */
  method RankAndPage(entries: seq<Record>, trimmedQuery: string, includeFuzzy: bool, includeSemantic: bool, limit: nat, offset: nat, decay: nat -> real)
    returns (finalResults: seq<MatchResult>)
    ensures finalResults == FreshResults(entries, trimmedQuery, includeFuzzy, includeSemantic, limit, offset, decay)
  {
    var analyzedResults: seq<MatchResult> := [];
    var k := 0;
    while k < |entries|
      invariant 0 <= k <= |entries|
      invariant analyzedResults == AnalyzeAll(entries[..k], trimmedQuery, includeFuzzy, includeSemantic, decay)
    {
      var analysis := AnalyzeEntryMatch(entries[k], trimmedQuery, AnalyzeOptions(includeFuzzy, includeSemantic), decay);
      ghost var m := Analyzed(entries[k], trimmedQuery, includeFuzzy, includeSemantic, decay);
      assert MatchResult(entries[k], analysis.score, analysis.matchType, analysis.matchedFields) == m;
      assert entries[..k + 1][..k] == entries[..k];
      assert AnalyzeAll(entries[..k + 1], trimmedQuery, includeFuzzy, includeSemantic, decay) == analyzedResults + [m];
      analyzedResults := analyzedResults + [MatchResult(entries[k], analysis.score, analysis.matchType, analysis.matchedFields)];
      k := k + 1;
    }
    assert entries[..k] == entries;
    var matchingResults := Ranking.SortDesc(Positive(analyzedResults), ScoreOf);
    finalResults := Ranking.Page(matchingResults, offset, limit);
  }

  /** `performEnhancedSearch` against the module-wide cache. */
  method PerformEnhancedSearch(cache: SearchCache<MatchResult>, entries: seq<Record>, query: string, options: SearchOptions, now: int, decay: nat -> real)
    returns (results: seq<MatchResult>)
    requires cache.Valid()
    modifies cache
    ensures cache.Valid()
    ensures (cache.entries, results) == SearchStep(old(cache.entries), entries, query, options, now, decay)
  {
    var limit := GetOr(options.limit, MaxResults);
    var offset := GetOr(options.offset, 0);
    var includeFuzzy := GetOr(options.includeFuzzy, true);
    var includeSemantic := GetOr(options.includeSemantic, true);
    if Trim(query) == [] {
      return NoQueryResults(entries);
    }
    var trimmedQuery := Trim(query);
    var cacheKey := CacheKey(trimmedQuery, includeFuzzy, includeSemantic, limit, offset);
    if |trimmedQuery| > CacheMinQueryLength {
      SearchStepCached(cache.entries, entries, query, options, now, decay);
      var cachedResults := cache.Get(cacheKey, now);
      if cachedResults.Some? {
        return cachedResults.value;
      }
    }
    results := RankAndPage(entries, trimmedQuery, includeFuzzy, includeSemantic, limit, offset, decay);
    if |trimmedQuery| > CacheMinQueryLength {
      cache.Set(cacheKey, results, now);
    }
  }

  /** A blank or whitespace-only query (including the empty one) returns every
      candidate unscored and leaves the cache alone. */
  lemma BlankQuerySpec(es: seq<CacheEntry<MatchResult>>, entries: seq<Record>, query: string, options: SearchOptions, now: int, decay: nat -> real)
    requires IsBlank(query)
    ensures SearchStep(es, entries, query, options, now, decay) == (es, NoQueryResults(entries))
  {
    TrimSpec(query);
  }

  /** A query whose trimmed form has one or two characters is answered without the cache, which is
      neither read nor written. */
  lemma ShortQueryBypassesCache(es: seq<CacheEntry<MatchResult>>, entries: seq<Record>, query: string, options: SearchOptions, now: int, decay: nat -> real)
    requires 0 < |Trim(query)| <= CacheMinQueryLength
    ensures SearchStep(es, entries, query, options, now, decay) ==
      (es, FreshResults(entries, Trim(query), GetOr(options.includeFuzzy, true), GetOr(options.includeSemantic, true),
                        GetOr(options.limit, MaxResults), GetOr(options.offset, 0), decay))
  {
  }

  /** A cache hit returns the stored page whatever the candidate list is. */
  lemma HitIgnoresCandidates(es: seq<CacheEntry<MatchResult>>, entries1: seq<Record>, entries2: seq<Record>, query: string, options: SearchOptions, now: int, decay: nat -> real)
    requires |Trim(query)| > CacheMinQueryLength
    requires GetStep(es, CacheKey(Trim(query), GetOr(options.includeFuzzy, true), GetOr(options.includeSemantic, true),
                                  GetOr(options.limit, MaxResults), GetOr(options.offset, 0)), now).1.Some?
    ensures SearchStep(es, entries1, query, options, now, decay) == SearchStep(es, entries2, query, options, now, decay)
  {
  }

  /** The ranking before paging holds exactly the positively scored analyses of the
      candidates, each as often as among the candidates, in descending score order,
      and candidates of equal score keep their input order. */
  lemma RankedSpec(entries: seq<Record>, query: string, fuzzy: bool, semantic: bool, decay: nat -> real)
    ensures var ranked := Ranked(entries, query, fuzzy, semantic, decay);
      var pos := Positive(AnalyzeAll(entries, query, fuzzy, semantic, decay));
      && multiset(ranked) == multiset(pos)
      && Ranking.SortedDesc(ranked, ScoreOf)
      && (forall v :: Ranking.WithKey(ranked, ScoreOf, v) == Ranking.WithKey(pos, ScoreOf, v))
    ensures forall v :: v > 0.0 ==>
      Ranking.WithKey(Ranked(entries, query, fuzzy, semantic, decay), ScoreOf, v) ==
      Ranking.WithKey(AnalyzeAll(entries, query, fuzzy, semantic, decay), ScoreOf, v)
    ensures forall m :: m in Ranked(entries, query, fuzzy, semantic, decay) <==>
      m.score > 0.0 && exists e :: e in entries && m == Analyzed(e, query, fuzzy, semantic, decay)
  {
    var all := AnalyzeAll(entries, query, fuzzy, semantic, decay);
    var pos := Positive(all);
    var ranked := Ranked(entries, query, fuzzy, semantic, decay);
    Ranking.SortDescSpec(pos, ScoreOf);
    forall m ensures m in ranked <==> m.score > 0.0 && exists e :: e in entries && m == Analyzed(e, query, fuzzy, semantic, decay) {
      assert m in ranked <==> m in multiset(pos);
      AnalyzeAllMembers(entries, query, fuzzy, semantic, decay, m);
    }
  }

  lemma AnalyzeAllMembers(entries: seq<Record>, query: string, fuzzy: bool, semantic: bool, decay: nat -> real, m: MatchResult)
    ensures m in AnalyzeAll(entries, query, fuzzy, semantic, decay) <==>
      exists e :: e in entries && m == Analyzed(e, query, fuzzy, semantic, decay)
  {
    var all := AnalyzeAll(entries, query, fuzzy, semantic, decay);
    if m in all {
      var k :| 0 <= k < |all| && all[k] == m;
      assert entries[k] in entries;
    }
    if exists e :: e in entries && m == Analyzed(e, query, fuzzy, semantic, decay) {
      var e :| e in entries && m == Analyzed(e, query, fuzzy, semantic, decay);
      var k :| 0 <= k < |entries| && entries[k] == e;
      assert all[k] == m;
    }
  }

  /** The uncached results: at most `limit` of them, consecutive in the ranking from
      `offset` on, all with a positive score and a match type other than `no_match`,
      in descending score order. */
  lemma FreshResultsSpec(entries: seq<Record>, query: string, fuzzy: bool, semantic: bool, limit: nat, offset: nat, decay: nat -> real)
    requires DecayBounded(decay)
    ensures var rs := FreshResults(entries, query, fuzzy, semantic, limit, offset, decay);
      var ranked := Ranked(entries, query, fuzzy, semantic, decay);
      && |rs| <= limit
      && (forall k :: 0 <= k < |rs| ==> offset + k < |ranked| && rs[k] == ranked[offset + k])
      && (forall k :: 0 <= k < |rs| ==> rs[k].score > 0.0 && rs[k].matchType != NoMatch)
      && (forall i, j :: 0 <= i < j < |rs| ==> rs[i].score >= rs[j].score)
  {
    var ranked := Ranked(entries, query, fuzzy, semantic, decay);
    var rs := FreshResults(entries, query, fuzzy, semantic, limit, offset, decay);
    RankedSpec(entries, query, fuzzy, semantic, decay);
    forall k | 0 <= k < |rs| ensures rs[k].score > 0.0 && rs[k].matchType != NoMatch {
      assert rs[k] in ranked;
      var e :| e in entries && rs[k] == Analyzed(e, query, fuzzy, semantic, decay);
      AnalyzeEntrySpec(e, query, AnalyzeOptions(fuzzy, semantic), decay);
    }
    forall i, j | 0 <= i < j < |rs| ensures rs[i].score >= rs[j].score {
      assert rs[i] == ranked[offset + i] && rs[j] == ranked[offset + j];
    }
  }

  /** Classification depends on the query only through its lower-cased form. */
  lemma ClassifyFieldCaseInsensitive(value: string, query: string, weight: real, fuzzy: bool)
    ensures ClassifyField(value, query, weight, fuzzy) == ClassifyField(value, Lower(query), weight, fuzzy)
  {
    LowerIdempotent(query);
    ClassifyFieldCongruent(value, query, Lower(query), weight, fuzzy);
  }

  /** Two queries with the same lower-cased form and length classify alike. */
  lemma ClassifyFieldCongruent(value: string, q1: string, q2: string, weight: real, fuzzy: bool)
    requires Lower(q1) == Lower(q2) && |q1| == |q2|
    ensures ClassifyField(value, q1, weight, fuzzy) == ClassifyField(value, q2, weight, fuzzy)
  {
    StrictTierCongruent(value, q1, q2, weight);
    assert Classifiers.FuzzyScore(value, q1) == Classifiers.FuzzyScore(value, q2);
  }

  lemma StrictTierCongruent(value: string, q1: string, q2: string, weight: real)
    requires Lower(q1) == Lower(q2) && |q1| == |q2|
    ensures StrictTier(value, q1, weight) == StrictTier(value, q2, weight)
  {
    assert Classifiers.HasExactMatch(value, q1) == Classifiers.HasExactMatch(value, q2);
    assert Classifiers.HasPrefixMatch(value, q1) == Classifiers.HasPrefixMatch(value, q2);
    assert Classifiers.HasWholeWordMatch(value, q1) == Classifiers.HasWholeWordMatch(value, q2);
    assert Classifiers.HasSubstringMatch(value, q1) == Classifiers.HasSubstringMatch(value, q2);
    assert Classifiers.HasMeaningfulSubstring(value, q1) == Classifiers.HasMeaningfulSubstring(value, q2);
  }

  lemma {:induction false} AccumulateCaseInsensitive(r: Record, query: string, opts: AnalyzeOptions, decay: nat -> real, n: nat)
    requires n <= |SearchableFields|
    ensures AccumulateFields(r, query, opts, decay, n) == AccumulateFields(r, Lower(query), opts, decay, n)
  {
    if n > 0 {
      AccumulateCaseInsensitive(r, query, opts, decay, n - 1);
      var f := SearchableFields[n - 1];
      var v := FieldValue(r, f);
      if v.Some? {
        ClassifyFieldCaseInsensitive(v.value, query, Weight(f), opts.includeFuzzy);
      }
    }
  }

  /** The analysis depends on the query only through its lower-cased form, which is
      what the cache key records. */
  lemma AnalyzeEntryCaseInsensitive(r: Record, query: string, opts: AnalyzeOptions, decay: nat -> real)
    ensures AnalyzeEntry(r, query, opts, decay) == AnalyzeEntry(r, Lower(query), opts, decay)
  {
    var q := Lower(query);
    AccumulateCaseInsensitive(r, query, opts, decay, |SearchableFields|);
    LowerIdempotent(query);
    assert Semantic.SemanticScore(r, query) == Semantic.SemanticScore(r, q);
    var acc := AccumulateFields(r, query, opts, decay, |SearchableFields|);
    assert WithSemantic(acc, r, query, opts) == WithSemantic(acc, r, q, opts);
  }

  lemma {:induction false} AnalyzeAllCaseInsensitive(entries: seq<Record>, query: string, fuzzy: bool, semantic: bool, decay: nat -> real)
    ensures AnalyzeAll(entries, query, fuzzy, semantic, decay) == AnalyzeAll(entries, Lower(query), fuzzy, semantic, decay)
  {
    if entries != [] {
      AnalyzeAllCaseInsensitive(entries[..|entries| - 1], query, fuzzy, semantic, decay);
      AnalyzeEntryCaseInsensitive(entries[|entries| - 1], query, AnalyzeOptions(fuzzy, semantic), decay);
    }
  }

  /** The position of the last occurrence of `c` in `s`, or -1. */
  function LastIndexOf(s: string, c: char): int {
    if s == [] then -1
    else if s[|s| - 1] == c then |s| - 1
    else LastIndexOf(s[..|s| - 1], c)
  }

  lemma {:induction false} LastUnderscoreAt(x: string, d: string)
    requires '_' !in d
    ensures LastIndexOf(x + "_" + d, '_') == |x|
  {
    var s := x + "_" + d;
    if d != [] {
      var d' := d[..|d| - 1];
      assert s[..|s| - 1] == x + "_" + d';
      assert s[|s| - 1] == d[|d| - 1];
      LastUnderscoreAt(x, d');
    }
  }

  /** Two texts that end in an underscore-free suffix after an underscore are equal
      only if the parts before the last underscore and the suffixes are. */
  lemma SplitAtLastUnderscore(x: string, d1: string, y: string, d2: string)
    requires '_' !in d1 && '_' !in d2
    requires x + "_" + d1 == y + "_" + d2
    ensures x == y && d1 == d2
  {
    var s := x + "_" + d1;
    LastUnderscoreAt(x, d1);
    LastUnderscoreAt(y, d2);
    assert |x| == |y|;
    assert x == s[..|x|];
    assert y == (y + "_" + d2)[..|y|];
    assert d1 == s[|x| + 1..];
    assert d2 == (y + "_" + d2)[|y| + 1..];
  }

  lemma DecimalHasNoUnderscore(n: nat)
    ensures '_' !in NatToDecimal(n)
  {
    assert forall k :: 0 <= k < |NatToDecimal(n)| ==> IsDigit(NatToDecimal(n)[k]);
  }

  /** Different queries (up to case and surrounding whitespace) or different options
      never share a cache key. */
  lemma CacheKeyInjective(q1: string, f1: bool, s1: bool, l1: nat, o1: nat, q2: string, f2: bool, s2: bool, l2: nat, o2: nat)
    requires CacheKey(q1, f1, s1, l1, o1) == CacheKey(q2, f2, s2, l2, o2)
    ensures Lower(q1) == Lower(q2) && f1 == f2 && s1 == s2 && l1 == l2 && o1 == o2
  {
    DecimalHasNoUnderscore(l1);
    DecimalHasNoUnderscore(l2);
    DecimalHasNoUnderscore(o1);
    DecimalHasNoUnderscore(o2);
    var p1 := Lower(q1) + "_" + BoolToString(f1) + "_" + BoolToString(s1);
    var p2 := Lower(q2) + "_" + BoolToString(f2) + "_" + BoolToString(s2);
    assert CacheKey(q1, f1, s1, l1, o1) == (p1 + "_" + NatToDecimal(l1)) + "_" + NatToDecimal(o1);
    assert CacheKey(q2, f2, s2, l2, o2) == (p2 + "_" + NatToDecimal(l2)) + "_" + NatToDecimal(o2);
    SplitAtLastUnderscore(p1 + "_" + NatToDecimal(l1), NatToDecimal(o1), p2 + "_" + NatToDecimal(l2), NatToDecimal(o2));
    SplitAtLastUnderscore(p1, NatToDecimal(l1), p2, NatToDecimal(l2));
    var b1 := Lower(q1) + "_" + BoolToString(f1);
    var b2 := Lower(q2) + "_" + BoolToString(f2);
    assert p1 == b1 + "_" + BoolToString(s1) && p2 == b2 + "_" + BoolToString(s2);
    assert '_' !in BoolToString(s1) && '_' !in BoolToString(s2);
    assert '_' !in BoolToString(f1) && '_' !in BoolToString(f2);
    SplitAtLastUnderscore(b1, BoolToString(s1), b2, BoolToString(s2));
    SplitAtLastUnderscore(Lower(q1), BoolToString(f1), Lower(q2), BoolToString(f2));
    DecimalRoundTrip(l1);
    DecimalRoundTrip(l2);
    DecimalRoundTrip(o1);
    DecimalRoundTrip(o2);
  }

  /** Every key in the cache is non-empty, so `set` never takes its early return. */
  ghost predicate KeysNonEmpty<V>(es: seq<CacheEntry<V>>) {
    forall i :: 0 <= i < |es| ==> es[i].key != ""
  }

  lemma GetStepKeepsKeysNonEmpty<V>(es: seq<CacheEntry<V>>, key: string, now: int)
    requires KeysNonEmpty(es)
    ensures KeysNonEmpty(GetStep(es, key, now).0)
  {
    var i := IndexOfKey(es, key);
    var es1 := GetStep(es, key, now).0;
    if i < |es| && es1 != es {
      forall j | 0 <= j < |es1| ensures es1[j].key != "" {
        if j < i { assert es1[j] == es[j]; } else { assert es1[j] == es[j + 1]; }
      }
    }
  }

  lemma SetStepKeepsKeysNonEmpty<V>(es: seq<CacheEntry<V>>, key: string, results: seq<V>, now: int)
    requires KeysNonEmpty(es) && key != ""
    ensures KeysNonEmpty(SetStep(es, key, results, now))
    ensures !SetAborts(es)
  {
    var base := if |es| >= MaxSize then es[1..] else es;
    if |es| >= MaxSize {
      assert forall t :: 0 <= t < |base| ==> base[t] == es[t + 1];
      assert es[0].key != "";
    }
    assert SetStep(es, key, results, now) == Put(base, CacheEntry(key, results, now));
  }

  /** What a search does to the cache when its trimmed query is longer than two
      characters: a hit returns the stored page and a miss stores the uncached page. */
  lemma SearchStepCached(es: seq<CacheEntry<MatchResult>>, entries: seq<Record>, query: string, options: SearchOptions, now: int, decay: nat -> real)
    requires |Trim(query)| > CacheMinQueryLength
    ensures var limit, offset := GetOr(options.limit, MaxResults), GetOr(options.offset, 0);
      var fuzzy, semantic := GetOr(options.includeFuzzy, true), GetOr(options.includeSemantic, true);
      var key := CacheKey(Trim(query), fuzzy, semantic, limit, offset);
      var got := GetStep(es, key, now);
      var computed := FreshResults(entries, Trim(query), fuzzy, semantic, limit, offset, decay);
      SearchStep(es, entries, query, options, now, decay) ==
        if got.1.Some? then (got.0, got.1.value) else (SetStep(got.0, key, computed, now), computed)
  {
  }

  /** A search keeps the cache's keys non-empty. */
  lemma SearchKeepsKeysNonEmpty(es: seq<CacheEntry<MatchResult>>, entries: seq<Record>, query: string, options: SearchOptions, now: int, decay: nat -> real)
    requires KeysNonEmpty(es)
    ensures KeysNonEmpty(SearchStep(es, entries, query, options, now, decay).0)
  {
    if |Trim(query)| > CacheMinQueryLength {
      var limit, offset := GetOr(options.limit, MaxResults), GetOr(options.offset, 0);
      var fuzzy, semantic := GetOr(options.includeFuzzy, true), GetOr(options.includeSemantic, true);
      var key := CacheKey(Trim(query), fuzzy, semantic, limit, offset);
      var computed := FreshResults(entries, Trim(query), fuzzy, semantic, limit, offset, decay);
      SearchStepCached(es, entries, query, options, now, decay);
      GetStepKeepsKeysNonEmpty(es, key, now);
      SetStepKeepsKeysNonEmpty(GetStep(es, key, now).0, key, computed, now);
    }
  }

  /** Queries equal up to case give the same uncached page. */
  lemma FreshResultsCaseInsensitive(entries: seq<Record>, q1: string, q2: string, fuzzy: bool, semantic: bool, limit: nat, offset: nat, decay: nat -> real)
    requires Lower(q1) == Lower(q2)
    ensures FreshResults(entries, q1, fuzzy, semantic, limit, offset, decay) == FreshResults(entries, q2, fuzzy, semantic, limit, offset, decay)
  {
    AnalyzeAllCaseInsensitive(entries, q1, fuzzy, semantic, decay);
    AnalyzeAllCaseInsensitive(entries, q2, fuzzy, semantic, decay);
  }

  /** Repeating a search within the TTL on the same candidates, with the same options
      and a query equal up to case and surrounding whitespace, is answered from the
      cache with exactly the page a computation without the cache would give,
      provided the first search found no entry under that key. */
  lemma RepeatedSearchHitsCache(es: seq<CacheEntry<MatchResult>>, entries: seq<Record>, q1: string, q2: string, options: SearchOptions, t1: int, t2: int, decay: nat -> real)
    requires KeysDistinct(es) && KeysNonEmpty(es)
    requires |Trim(q1)| > CacheMinQueryLength && Lower(Trim(q1)) == Lower(Trim(q2))
    requires t2 - t1 <= Ttl
    requires !HasKey(es, CacheKey(Trim(q1), GetOr(options.includeFuzzy, true), GetOr(options.includeSemantic, true),
                                  GetOr(options.limit, MaxResults), GetOr(options.offset, 0)))
    ensures var es1 := SearchStep(es, entries, q1, options, t1, decay).0;
      SearchStep(es1, entries, q2, options, t2, decay) ==
        (es1, FreshResults(entries, Trim(q2), GetOr(options.includeFuzzy, true), GetOr(options.includeSemantic, true),
                           GetOr(options.limit, MaxResults), GetOr(options.offset, 0), decay))
  {
    var limit, offset := GetOr(options.limit, MaxResults), GetOr(options.offset, 0);
    var fuzzy, semantic := GetOr(options.includeFuzzy, true), GetOr(options.includeSemantic, true);
    var key := CacheKey(Trim(q1), fuzzy, semantic, limit, offset);
    assert |Trim(q2)| == |Lower(Trim(q2))| == |Lower(Trim(q1))| == |Trim(q1)|;
    LowerIdempotent(Trim(q1));
    LowerIdempotent(Trim(q2));
    assert CacheKey(Trim(q2), fuzzy, semantic, limit, offset) == key;
    var computed1 := FreshResults(entries, Trim(q1), fuzzy, semantic, limit, offset, decay);
    FreshResultsCaseInsensitive(entries, Trim(q1), Trim(q2), fuzzy, semantic, limit, offset, decay);
    SearchStepCached(es, entries, q1, options, t1, decay);
    assert GetStep(es, key, t1) == (es, None);
    SetStepKeepsKeysNonEmpty(es, key, computed1, t1);
    var es1 := SetStep(es, key, computed1, t1);
    assert SearchStep(es, entries, q1, options, t1, decay).0 == es1;
    SetThenGet(es, key, computed1, t1, t2);
    SearchStepCached(es1, entries, q2, options, t2, decay);
  }

  /** A cached page is no longer than the limit written in its key. */
  ghost predicate FitsKey(e: CacheEntry<MatchResult>) {
    exists q, f, s, l, o :: e.key == CacheKey(q, f, s, l, o) && |e.results| <= l
  }

  /** Every cached page fits its key; searches keep it so. */
  ghost predicate ResultsFitKeys(es: seq<CacheEntry<MatchResult>>) {
    forall e :: e in es ==> FitsKey(e)
  }

  lemma GetStepKeepsFit(es: seq<CacheEntry<MatchResult>>, key: string, now: int)
    requires ResultsFitKeys(es)
    ensures ResultsFitKeys(GetStep(es, key, now).0)
  {
    var i := IndexOfKey(es, key);
    var es1 := GetStep(es, key, now).0;
    forall e | e in es1 ensures FitsKey(e) {
      var j :| 0 <= j < |es1| && es1[j] == e;
      if i < |es| && es1 != es {
        if j < i { assert es1[j] == es[j]; } else { assert es1[j] == es[j + 1]; }
      }
    }
  }

  lemma SetStepKeepsFit(es: seq<CacheEntry<MatchResult>>, key: string, results: seq<MatchResult>, now: int)
    requires ResultsFitKeys(es) && FitsKey(CacheEntry(key, results, now))
    ensures ResultsFitKeys(SetStep(es, key, results, now))
  {
    var e := CacheEntry(key, results, now);
    var base := if |es| >= MaxSize then es[1..] else es;
    var es1 := SetStep(es, key, results, now);
    assert es1 == es || es1 == Put(base, e);
    forall x | x in es1 ensures FitsKey(x) {
      if es1 != es {
        var j :| 0 <= j < |es1| && es1[j] == x;
        var i := IndexOfKey(base, key);
        if x != e {
          assert j < |base| && x == base[j];
          if |es| >= MaxSize { assert base[j] == es[j + 1]; }
        }
      }
    }
  }

  /** The cache part of a search under `key`: a hit returns a page no longer than the
      key's limit, and a miss stores a page that fits its key. */
  lemma CachedLookupFits(es: seq<CacheEntry<MatchResult>>, q: string, f: bool, s: bool, limit: nat, o: nat, computed: seq<MatchResult>, now: int)
    requires ResultsFitKeys(es) && |computed| <= limit
    ensures var key := CacheKey(q, f, s, limit, o);
      var got := GetStep(es, key, now);
      && (got.1.Some? ==> |got.1.value| <= limit && ResultsFitKeys(got.0))
      && (got.1.None? ==> ResultsFitKeys(SetStep(got.0, key, computed, now)))
  {
    var key := CacheKey(q, f, s, limit, o);
    var got := GetStep(es, key, now);
    GetStepKeepsFit(es, key, now);
    if got.1.Some? {
      var i := IndexOfKey(es, key);
      assert es[i] in es;
      var q', f', s', l', o' :| es[i].key == CacheKey(q', f', s', l', o') && |es[i].results| <= l';
      CacheKeyInjective(q', f', s', l', o', q, f, s, limit, o);
    } else {
      assert FitsKey(CacheEntry(key, computed, now));
      SetStepKeepsFit(got.0, key, computed, now);
    }
  }

  /** A search whose query is not blank returns at most `limit` results (default 100),
      whether the page comes from the cache or is computed, provided every cached page
      fits its key; and the search keeps every cached page fitting its key. */
  lemma SearchResultsWithinLimit(es: seq<CacheEntry<MatchResult>>, entries: seq<Record>, query: string, options: SearchOptions, now: int, decay: nat -> real)
    requires ResultsFitKeys(es)
    ensures ResultsFitKeys(SearchStep(es, entries, query, options, now, decay).0)
    ensures Trim(query) != [] ==> |SearchStep(es, entries, query, options, now, decay).1| <= GetOr(options.limit, MaxResults)
  {
    var limit, offset := GetOr(options.limit, MaxResults), GetOr(options.offset, 0);
    var fuzzy, semantic := GetOr(options.includeFuzzy, true), GetOr(options.includeSemantic, true);
    var computed := FreshResults(entries, Trim(query), fuzzy, semantic, limit, offset, decay);
    if Trim(query) == [] {
      TrimSpec(query);
      BlankQuerySpec(es, entries, query, options, now, decay);
    } else if |Trim(query)| <= CacheMinQueryLength {
      ShortQueryBypassesCache(es, entries, query, options, now, decay);
    } else {
      SearchStepCached(es, entries, query, options, now, decay);
      CachedLookupFits(es, Trim(query), fuzzy, semantic, limit, offset, computed, now);
    }
  }

  /** `getSearchStats`' result; `matchTypeDistribution` keeps its keys in insertion
      order. */
  datatype SearchStats = SearchStats(
    totalResults: nat,
    averageScore: real,
    matchTypeDistribution: seq<(MatchType, nat)>,
    queryLength: nat,
    executionTime: nat)

  /** `searchResults.reduce((sum, result) => sum + result.score, 0)`. */
  function ScoreSum(rs: seq<MatchResult>): real {
    if rs == [] then 0.0 else ScoreSum(rs[..|rs| - 1]) + rs[|rs| - 1].score
  }

  /** `distribution[t] = (distribution[t] || 0) + 1` for each result in order. */
  function Distribution(rs: seq<MatchResult>): seq<(MatchType, nat)> {
    if rs == [] then []
    else
      var d := Distribution(rs[..|rs| - 1]);
      var t := rs[|rs| - 1].matchType;
      var i := IndexOfCount(d, t);
      if i < |d| then d[i := (t, d[i].1 + 1)] else d + [(t, 1)]
  }

  function IndexOfCount(d: seq<(MatchType, nat)>, t: MatchType): (i: nat)
    ensures i <= |d|
    ensures i < |d| ==> d[i].0 == t
    ensures forall j :: 0 <= j < i ==> d[j].0 != t
  {
    if d == [] then 0
    else if d[0].0 == t then 0
    else 1 + IndexOfCount(d[1..], t)
  }

  /** The number of results of match type `t`: the reference the distribution is
      checked against. */
  function CountOf(rs: seq<MatchResult>, t: MatchType): nat {
    if rs == [] then 0
    else CountOf(rs[..|rs| - 1], t) + (if rs[|rs| - 1].matchType == t then 1 else 0)
  }

  /** `getSearchStats`. */
  function GetSearchStats(rs: seq<MatchResult>): SearchStats {
    if rs == [] then SearchStats(0, 0.0, [], 0, 0)
    else SearchStats(|rs|, Round2(ScoreSum(rs) / (|rs| as real)), Distribution(rs), 0, 0)
  }

  /** The distribution lists each match type of the results once, in order of first
      appearance, with the number of results of that type. */
  lemma {:induction false} DistributionSpec(rs: seq<MatchResult>)
    ensures var d := Distribution(rs);
      && (forall i, j :: 0 <= i < j < |d| ==> d[i].0 != d[j].0)
      && (forall i :: 0 <= i < |d| ==> d[i].1 == CountOf(rs, d[i].0) && d[i].1 > 0)
      && (forall t :: CountOf(rs, t) > 0 ==> exists i :: 0 <= i < |d| && d[i].0 == t)
  {
    DistributionDistinct(rs);
    DistributionCounts(rs);
    DistributionCovers(rs);
  }

  predicate TypesDistinct(d: seq<(MatchType, nat)>) {
    forall i, j :: 0 <= i < j < |d| ==> d[i].0 != d[j].0
  }

  predicate CountsAgree(rs: seq<MatchResult>, d: seq<(MatchType, nat)>) {
    forall i :: 0 <= i < |d| ==> d[i].1 == CountOf(rs, d[i].0) && d[i].1 > 0
  }

  predicate CoversTypes(rs: seq<MatchResult>, d: seq<(MatchType, nat)>) {
    forall t :: CountOf(rs, t) > 0 ==> exists i :: 0 <= i < |d| && d[i].0 == t
  }

  lemma {:induction false} DistributionDistinct(rs: seq<MatchResult>)
    ensures TypesDistinct(Distribution(rs))
  {
    if rs != [] {
      var init := rs[..|rs| - 1];
      DistributionDistinct(init);
      var d0 := Distribution(init);
      var t := rs[|rs| - 1].matchType;
      var d := Distribution(rs);
      var i := IndexOfCount(d0, t);
      if i < |d0| {
        assert d == d0[i := (t, d0[i].1 + 1)];
        assert |d| == |d0|;
        forall a, b | 0 <= a < b < |d| ensures d[a].0 != d[b].0 {
          assert d[a].0 == d0[a].0 && d[b].0 == d0[b].0;
          assert d0[a].0 != d0[b].0;
        }
      } else {
        assert d == d0 + [(t, 1)];
        assert forall k :: 0 <= k < |d0| ==> d[k] == d0[k];
        assert forall a, b :: 0 <= a < b < |d| ==> d[a].0 != d[b].0;
      }
    }
  }

  lemma {:induction false} DistributionCounts(rs: seq<MatchResult>)
    ensures CountsAgree(rs, Distribution(rs))
  {
    if rs != [] {
      var init := rs[..|rs| - 1];
      DistributionCounts(init);
      DistributionDistinct(init);
      DistributionCovers(init);
      var d0 := Distribution(init);
      var t := rs[|rs| - 1].matchType;
      var d := Distribution(rs);
      var i := IndexOfCount(d0, t);
      forall k | 0 <= k < |d| ensures d[k].1 == CountOf(rs, d[k].0) && d[k].1 > 0 {
        if k < |d0| && k != i {
          assert d[k] == d0[k];
          if i < |d0| {
            assert d0[i].0 == t;
          }
          assert d0[k].0 != t;
        }
        if i == |d0| && k == i {
          assert CountOf(init, t) == 0 by {
            CountOfAbsent(init, t, d0);
          }
        }
      }
    }
  }

  lemma CountOfAbsent(init: seq<MatchResult>, t: MatchType, d0: seq<(MatchType, nat)>)
    requires CoversTypes(init, d0)
    requires forall k :: 0 <= k < |d0| ==> d0[k].0 != t
    ensures CountOf(init, t) == 0
  {
  }

  lemma {:induction false} DistributionCovers(rs: seq<MatchResult>)
    ensures CoversTypes(rs, Distribution(rs))
  {
    if rs != [] {
      var init := rs[..|rs| - 1];
      DistributionCovers(init);
      var d0 := Distribution(init);
      var t := rs[|rs| - 1].matchType;
      var d := Distribution(rs);
      var i := IndexOfCount(d0, t);
      forall u | CountOf(rs, u) > 0 ensures exists k :: 0 <= k < |d| && d[k].0 == u {
        if u == t {
          if i < |d0| { assert d[i].0 == u; } else { assert d[|d0|].0 == u; }
        } else {
          assert CountOf(init, u) == CountOf(rs, u);
          var k :| 0 <= k < |d0| && d0[k].0 == u;
          assert d[k].0 == u;
        }
      }
    }
  }

  lemma {:induction false} ScoreSumBounds(rs: seq<MatchResult>, hi: real)
    requires forall k :: 0 <= k < |rs| ==> 0.0 <= rs[k].score <= hi
    ensures 0.0 <= ScoreSum(rs) <= (|rs| as real) * hi
  {
    if rs != [] {
      ScoreSumBounds(rs[..|rs| - 1], hi);
    }
  }

  /** The statistics count every result; the average score is the mean score rounded
      to cents, so within half a cent of it, and lies in [0, hi] up to that rounding
      when every score does; an empty result list has all zeros. */
  lemma GetSearchStatsSpec(rs: seq<MatchResult>, hi: real)
    requires 0.0 <= hi
    requires forall k :: 0 <= k < |rs| ==> 0.0 <= rs[k].score <= hi
    ensures var st := GetSearchStats(rs);
      && st.totalResults == |rs|
      && 0.0 <= st.averageScore <= hi + 0.005
      && (rs != [] ==> ScoreSum(rs) / (|rs| as real) - 0.005 < st.averageScore <= ScoreSum(rs) / (|rs| as real) + 0.005)
      && st.queryLength == 0 && st.executionTime == 0
      && (rs == [] ==> st.averageScore == 0.0 && st.matchTypeDistribution == [])
  {
    if rs != [] {
      ScoreSumBounds(rs, hi);
      var n := |rs| as real;
      var avg := ScoreSum(rs) / n;
      assert avg <= hi by {
        assert ScoreSum(rs) <= n * hi;
        assert (n * hi) / n == hi;
      }
      assert avg >= 0.0;
      Round2Spec(avg);
    }
  }
}
