/** The per-entry analyzer `analyzeEntryMatch`: runs the classifier cascade on each
    searchable field, weights and decays the field scores, adds the semantic bonus
    when nothing else matched, picks the dominant match type and rounds the score. */
module Analyzer {
  import opened Strings
  import opened Wrappers
  import opened Records
  import opened Classifiers
  import Semantic
  import Ranking

  datatype MatchType =
    | NoMatch | NoQuery | Exact | Prefix | WholeWord | Substring
    | SubstringRestricted | Fuzzy | SemanticMatch | Unknown

  /** The `options` argument; omitting it leaves both flags undefined, i.e. off. */
  datatype AnalyzeOptions = AnalyzeOptions(includeFuzzy: bool, includeSemantic: bool)

  const OptionsOmitted: AnalyzeOptions := AnalyzeOptions(false, false)

  datatype Analysis = Analysis(score: real, matchType: MatchType, matchedFields: seq<string>)

  /** Fields longer than this have their positive scores decayed. */
  const DecayLengthThreshold: nat := 100

  /** `decay(len)` stands for `Math.log(100) / Math.log(len)`, which lies strictly
      between 0 and 1 for every length above 100. */
  ghost predicate DecayBounded(decay: nat -> real) {
    forall n: nat :: n > DecayLengthThreshold ==> 0.0 < decay(n) < 1.0
  }

  /** `Math.round(x * 100) / 100`; `Math.round` rounds halves upwards. */
  function Round2(x: real): real {
    ((x * 100.0 + 0.5).Floor as real) / 100.0
  }

  /** Rounding moves a value by at most half a cent, keeps non-negative values
      non-negative and maps 0 to 0. */
  lemma Round2Spec(x: real)
    ensures x - 0.005 < Round2(x) <= x + 0.005
    ensures x >= 0.0 ==> Round2(x) >= 0.0
    ensures Round2(0.0) == 0.0
  {
    var y := x * 100.0 + 0.5;
    assert (y.Floor as real) <= y < (y.Floor as real) + 1.0;
    assert (0.5).Floor == 0;
  }

  /** The score and match type one field earns: the first tier of the cascade
      exact, prefix, whole word, substring, fuzzy that fires. `kind` is `None` when
      no tier contributes. */
  datatype FieldTier = FieldTier(score: real, kind: Option<MatchType>)

  /** The tiers before the fuzzy one, tried in order: the first that fires decides
      the field's tier, and `None` means that none of them fired. A short query whose
      substring match is not meaningful stops the cascade with no tier. */
  function StrictTier(value: string, query: string, weight: real): Option<FieldTier> {
    if HasExactMatch(value, query) then Some(FieldTier(ExactMatchPoints * weight, Some(Exact)))
    else if HasPrefixMatch(value, query) then Some(FieldTier(PrefixMatchPoints * weight, Some(Prefix)))
    else if HasWholeWordMatch(value, query) then Some(FieldTier(FullWordPhrasePoints * weight, Some(WholeWord)))
    else if HasSubstringMatch(value, query) then
      if |query| < ShortWordThreshold then
        if HasMeaningfulSubstring(value, query) then
          Some(FieldTier(SubstringMatchPoints * weight * 0.7, Some(SubstringRestricted)))
        else Some(FieldTier(0.0, None))
      else Some(FieldTier(SubstringMatchPoints * weight, Some(Substring)))
    else None
  }

  /** The fuzzy tier, tried last and only when enabled. */
  function FuzzyTier(value: string, query: string, weight: real): FieldTier {
    var f := FuzzyScore(value, query);
    if f > 0.0 then FieldTier(f * weight, Some(Fuzzy)) else FieldTier(0.0, None)
  }

  function ClassifyField(value: string, query: string, weight: real, includeFuzzy: bool): FieldTier {
    match StrictTier(value, query, weight)
    case Some(t) => t
    case None => if includeFuzzy then FuzzyTier(value, query, weight) else FieldTier(0.0, None)
  }

  /** The rank of a tier in the cascade, lower is stronger. */
  function TierRank(k: MatchType): nat {
    match k
    case Exact => 0
    case Prefix => 1
    case WholeWord => 2
    case Substring => 3
    case SubstringRestricted => 3
    case Fuzzy => 4
    case _ => 5
  }

  /** Each field gets exactly one tier: exact when the lower-cased strings are equal;
      otherwise prefix when the query occurs at a word boundary; the whole-word tier
      never fires; otherwise a substring tier when `hasSubstringMatch` passes (40 points
      weighted, or 70% of that for queries under four characters, a case in which the
      analyzer's second test always passes); otherwise, if enabled, fuzzy, worth at most
      20 points weighted. A tier that fires scores positively, one that does not scores 0. */
  lemma ClassifyFieldSpec(value: string, query: string, weight: real, includeFuzzy: bool)
    requires 0.0 < weight
    ensures var t := ClassifyField(value, query, weight, includeFuzzy);
      && (t.kind.Some? <==> t.score > 0.0)
      && (t.kind.None? ==> t.score == 0.0)
      && t.kind != Some(WholeWord)
      && (t.kind == Some(Exact) <==> HasExactMatch(value, query))
      && (t.kind == Some(Prefix) <==> !HasExactMatch(value, query) && HasPrefixMatch(value, query))
      && (t.kind == Some(Substring) <==>
            !HasExactMatch(value, query) && !HasPrefixMatch(value, query)
            && HasSubstringMatch(value, query) && |query| >= ShortWordThreshold)
      && (t.kind == Some(SubstringRestricted) <==>
            !HasExactMatch(value, query) && !HasPrefixMatch(value, query)
            && HasSubstringMatch(value, query) && |query| < ShortWordThreshold)
      && (t.kind == Some(Fuzzy) <==>
            includeFuzzy && !HasPrefixMatch(value, query) && !HasSubstringMatch(value, query)
            && !HasExactMatch(value, query) && FuzzyScore(value, query) > 0.0)
      && (t.kind == Some(Exact) ==> t.score == ExactMatchPoints * weight)
      && (t.kind == Some(Prefix) ==> t.score == PrefixMatchPoints * weight)
      && (t.kind == Some(Substring) ==> t.score == SubstringMatchPoints * weight)
      && (t.kind == Some(SubstringRestricted) ==> t.score == SubstringMatchPoints * weight * 0.7)
      && (t.kind == Some(Fuzzy) ==> t.score <= FuzzyMatchPoints * weight)
  {
    ClassifyFieldKinds(value, query, weight, includeFuzzy);
    ClassifyFieldScores(value, query, weight, includeFuzzy);
  }

  /** Which tier fires, as a function of the classifiers' answers. */
  lemma ClassifyFieldKinds(value: string, query: string, weight: real, includeFuzzy: bool)
    ensures var t := ClassifyField(value, query, weight, includeFuzzy);
      && t.kind != Some(WholeWord)
      && (t.kind == Some(Exact) <==> HasExactMatch(value, query))
      && (t.kind == Some(Prefix) <==> !HasExactMatch(value, query) && HasPrefixMatch(value, query))
      && (t.kind == Some(Substring) <==>
            !HasExactMatch(value, query) && !HasPrefixMatch(value, query)
            && HasSubstringMatch(value, query) && |query| >= ShortWordThreshold)
      && (t.kind == Some(SubstringRestricted) <==>
            !HasExactMatch(value, query) && !HasPrefixMatch(value, query)
            && HasSubstringMatch(value, query) && |query| < ShortWordThreshold)
      && (t.kind == Some(Fuzzy) <==>
            includeFuzzy && !HasPrefixMatch(value, query) && !HasSubstringMatch(value, query)
            && !HasExactMatch(value, query) && FuzzyScore(value, query) > 0.0)
  {
    if HasWholeWordMatch(value, query) {
      WholeWordImpliesPrefix(value, query);
    }
    if !HasExactMatch(value, query) && !HasPrefixMatch(value, query)
       && HasSubstringMatch(value, query) && |query| < ShortWordThreshold {
      SubstringImpliesMeaningful(value, query);
    }
  }

  /** What each tier scores: a tier that fires scores positively, one that does not
      scores 0, and the fuzzy tier fires only when enabled. */
  lemma ClassifyFieldScores(value: string, query: string, weight: real, includeFuzzy: bool)
    requires 0.0 < weight
    ensures var t := ClassifyField(value, query, weight, includeFuzzy);
      && (t.kind.Some? <==> t.score > 0.0)
      && (t.kind.None? ==> t.score == 0.0)
      && t.kind != Some(WholeWord)
      && (t.kind == Some(Fuzzy) ==> includeFuzzy)
      && (t.kind == Some(Exact) ==> t.score == ExactMatchPoints * weight)
      && (t.kind == Some(Prefix) ==> t.score == PrefixMatchPoints * weight)
      && (t.kind == Some(Substring) ==> t.score == SubstringMatchPoints * weight)
      && (t.kind == Some(SubstringRestricted) ==> t.score == SubstringMatchPoints * weight * 0.7)
      && (t.kind == Some(Fuzzy) ==> t.score <= FuzzyMatchPoints * weight)
  {
    ClassifyFieldPositive(value, query, weight, includeFuzzy);
    ClassifyFieldPoints(value, query, weight, includeFuzzy);
    ClassifyFieldFuzzyBound(value, query, weight, includeFuzzy);
  }

  lemma ClassifyFieldPositive(value: string, query: string, weight: real, includeFuzzy: bool)
    requires 0.0 < weight
    ensures var t := ClassifyField(value, query, weight, includeFuzzy);
      && (t.kind.Some? <==> t.score > 0.0)
      && (t.kind.None? ==> t.score == 0.0)
      && t.kind != Some(WholeWord)
      && (t.kind == Some(Fuzzy) ==> includeFuzzy)
  {
    if HasExactMatch(value, query) || HasPrefixMatch(value, query) {
    } else if HasWholeWordMatch(value, query) {
      WholeWordImpliesPrefix(value, query);
    } else if HasSubstringMatch(value, query) {
    } else if includeFuzzy {
      var f := FuzzyScore(value, query);
      if f > 0.0 {
        PositiveProduct(f, weight);
      }
    }
  }

  lemma ClassifyFieldPoints(value: string, query: string, weight: real, includeFuzzy: bool)
    requires 0.0 < weight
    ensures var t := ClassifyField(value, query, weight, includeFuzzy);
      && (t.kind == Some(Exact) ==> t.score == ExactMatchPoints * weight)
      && (t.kind == Some(Prefix) ==> t.score == PrefixMatchPoints * weight)
      && (t.kind == Some(Substring) ==> t.score == SubstringMatchPoints * weight)
      && (t.kind == Some(SubstringRestricted) ==> t.score == SubstringMatchPoints * weight * 0.7)
  {
    if HasExactMatch(value, query) || HasPrefixMatch(value, query) || HasWholeWordMatch(value, query) {
    } else if HasSubstringMatch(value, query) {
    }
  }

  lemma ClassifyFieldFuzzyBound(value: string, query: string, weight: real, includeFuzzy: bool)
    requires 0.0 < weight
    ensures var t := ClassifyField(value, query, weight, includeFuzzy);
      t.kind == Some(Fuzzy) ==> t.score <= FuzzyMatchPoints * weight
  {
    if HasExactMatch(value, query) || HasPrefixMatch(value, query) || HasWholeWordMatch(value, query) {
    } else if HasSubstringMatch(value, query) {
    } else if includeFuzzy {
      var f := FuzzyScore(value, query);
      FuzzyScoreBounds(value, query);
      ScaleMonotone(f, FuzzyMatchPoints, weight);
    }
  }

  lemma ScaleMonotone(x: real, y: real, w: real)
    requires x <= y && 0.0 < w
    ensures x * w <= y * w
  {
    assert (y - x) * w >= 0.0;
  }

  lemma PositiveProduct(x: real, y: real)
    requires 0.0 < x && 0.0 < y
    ensures 0.0 < x * y
  {
  }

  /** A stronger tier always outscores a weaker one for the same field weight, even
      when the weaker one is reached by a different value or query. */
  lemma TierOrder(v1: string, q1: string, v2: string, q2: string, weight: real, fuzzy: bool)
    requires 0.0 < weight
    requires ClassifyField(v1, q1, weight, fuzzy).kind.Some?
    requires ClassifyField(v2, q2, weight, fuzzy).kind.Some?
    requires TierRank(ClassifyField(v1, q1, weight, fuzzy).kind.value) < TierRank(ClassifyField(v2, q2, weight, fuzzy).kind.value)
    ensures ClassifyField(v1, q1, weight, fuzzy).score > ClassifyField(v2, q2, weight, fuzzy).score
  {
    ClassifyFieldScores(v1, q1, weight, fuzzy);
    ClassifyFieldScores(v2, q2, weight, fuzzy);
  }

  /** The long-text decay: applied only to a positive score of a field longer than
      100 characters. */
  function Decayed(score: real, length: nat, decay: nat -> real): real {
    if length > DecayLengthThreshold && score > 0.0 then score * decay(length) else score
  }

  /** Decay never raises a score and keeps a positive score positive. */
  lemma DecayNeverRaises(score: real, length: nat, decay: nat -> real)
    requires DecayBounded(decay) && score >= 0.0
    ensures 0.0 <= Decayed(score, length, decay) <= score
    ensures Decayed(score, length, decay) > 0.0 <==> score > 0.0
    ensures length <= DecayLengthThreshold ==> Decayed(score, length, decay) == score
  {
    if length > DecayLengthThreshold && score > 0.0 {
      assert 0.0 < decay(length) < 1.0;
      assert score * decay(length) <= score * 1.0;
    }
  }

  /** Index of the entry for match type `k` in the insertion-ordered score table, or
      the table's length. */
  function IndexOfType(ts: seq<(MatchType, real)>, k: MatchType): (i: nat)
    ensures i <= |ts|
    ensures i < |ts| ==> ts[i].0 == k
    ensures forall j :: 0 <= j < i ==> ts[j].0 != k
  {
    if ts == [] then 0
    else if ts[0].0 == k then 0
    else 1 + IndexOfType(ts[1..], k)
  }

  /** `matchTypeScores[k] = (matchTypeScores[k] || 0) + v`: a new key is appended,
      an existing key keeps its place. */
  function AddTypeScore(ts: seq<(MatchType, real)>, k: MatchType, v: real): seq<(MatchType, real)> {
    var i := IndexOfType(ts, k);
    if i < |ts| then ts[i := (k, ts[i].1 + v)] else ts + [(k, v)]
  }

  /** `matchTypeScores[k] = v`. */
  function SetTypeScore(ts: seq<(MatchType, real)>, k: MatchType, v: real): seq<(MatchType, real)> {
    var i := IndexOfType(ts, k);
    if i < |ts| then ts[i := (k, v)] else ts + [(k, v)]
  }

  /** The state the analyzer's loop carries: `totalScore`, `matchTypeScores` (in
      insertion order) and `matchedFields`. */
  datatype Acc = Acc(total: real, typeScores: seq<(MatchType, real)>, matched: seq<string>)

  /** One iteration of the field loop. */
  function FieldStep(acc: Acc, r: Record, f: Field, query: string, opts: AnalyzeOptions, decay: nat -> real): Acc {
    match FieldValue(r, f)
    case None => acc
    case Some(v) =>
      if v == "" then acc
      else
        var tier := ClassifyField(v, query, Weight(f), opts.includeFuzzy);
        TierStep(acc, tier.kind, Decayed(tier.score, |v|, decay), FieldName(f))
  }

  /** The loop state after the first `n` searchable fields. */
  function AccumulateFields(r: Record, query: string, opts: AnalyzeOptions, decay: nat -> real, n: nat): Acc
    requires n <= |SearchableFields|
  {
    if n == 0 then Acc(0.0, [], [])
    else FieldStep(AccumulateFields(r, query, opts, decay, n - 1), r, SearchableFields[n - 1], query, opts, decay)
  }

  /** The semantic phase: only when enabled and the field total is exactly 0. */
  function WithSemantic(acc: Acc, r: Record, query: string, opts: AnalyzeOptions): Acc {
    if opts.includeSemantic && acc.total == 0.0 then
      var s := Semantic.SemanticScore(r, query);
      if s > 0.0 then Acc(acc.total + s, SetTypeScore(acc.typeScores, SemanticMatch, s), acc.matched + ["semantic"])
      else acc
    else acc
  }

  function EntryScoreOf(p: (MatchType, real)): real { p.1 }

  /** `Object.entries(matchTypeScores).sort((a, b) => b[1] - a[1])[0]?.[0] || "unknown"`
      when the total is positive, `no_match` otherwise. */
  function PrimaryMatchType(total: real, ts: seq<(MatchType, real)>): MatchType {
    if total > 0.0 then
      var sorted := Ranking.SortDesc(ts, EntryScoreOf);
      if |sorted| > 0 then sorted[0].0 else Unknown
    else NoMatch
  }

  /** `analyzeEntryMatch` as a value. */
  function AnalyzeEntry(r: Record, query: string, opts: AnalyzeOptions, decay: nat -> real): Analysis {
    var acc := WithSemantic(AccumulateFields(r, query, opts, decay, |SearchableFields|), r, query, opts);
    Analysis(Round2(acc.total), PrimaryMatchType(acc.total, acc.typeScores), Semantic.Dedup(acc.matched))
  }

  /** One field's pass through the classifier cascade, as the analyzer's loop body
      runs it, calling the imperative fuzzy scorer. */
  method ScoreField(value: string, query: string, weight: real, includeFuzzy: bool)
    returns (fieldScore: real, fieldMatchType: Option<MatchType>)
    ensures FieldTier(fieldScore, fieldMatchType) == ClassifyField(value, query, weight, includeFuzzy)
  {
    fieldScore, fieldMatchType := 0.0, None;
    if HasExactMatch(value, query) {
      fieldScore, fieldMatchType := ExactMatchPoints * weight, Some(Exact);
    } else if HasPrefixMatch(value, query) {
      fieldScore, fieldMatchType := PrefixMatchPoints * weight, Some(Prefix);
    } else if HasWholeWordMatch(value, query) {
      fieldScore, fieldMatchType := FullWordPhrasePoints * weight, Some(WholeWord);
    } else if HasSubstringMatch(value, query) {
      if |query| < ShortWordThreshold {
        if HasMeaningfulSubstring(value, query) {
          fieldScore, fieldMatchType := SubstringMatchPoints * weight * 0.7, Some(SubstringRestricted);
        }
      } else {
        fieldScore, fieldMatchType := SubstringMatchPoints * weight, Some(Substring);
      }
    } else if includeFuzzy && fieldScore == 0.0 {
      var fuzzyScore := CalculateFuzzyScore(value, query);
      if fuzzyScore > 0.0 {
        fieldScore, fieldMatchType := fuzzyScore * weight, Some(Fuzzy);
      }
    }
  }

  /** `analyzeEntryMatch`: the loop over the weighted fields, then the semantic phase,
      the dominant type and the rounding. */
  method AnalyzeEntryMatch(r: Record, query: string, opts: AnalyzeOptions, decay: nat -> real) returns (a: Analysis)
    ensures a == AnalyzeEntry(r, query, opts, decay)
  {
    var totalScore := 0.0;
    var matchedFields: seq<string> := [];
    var matchTypeScores: seq<(MatchType, real)> := [];
    var n := 0;
    while n < |SearchableFields|
      invariant 0 <= n <= |SearchableFields|
      invariant Acc(totalScore, matchTypeScores, matchedFields) == AccumulateFields(r, query, opts, decay, n)
    {
      var field := SearchableFields[n];
      var fieldValue := FieldValue(r, field);
      ghost var before := Acc(totalScore, matchTypeScores, matchedFields);
      assert AccumulateFields(r, query, opts, decay, n + 1) == FieldStep(before, r, field, query, opts, decay);
      n := n + 1;
      if fieldValue.None? || fieldValue.value == "" {
        continue;
      }
      var value := fieldValue.value;
      var fieldScore, fieldMatchType := ScoreField(value, query, Weight(field), opts.includeFuzzy);
      fieldScore := Decayed(fieldScore, |value|, decay);
      if fieldMatchType.Some? {
        matchedFields := matchedFields + [FieldName(field)];
        matchTypeScores := AddTypeScore(matchTypeScores, fieldMatchType.value, fieldScore);
      }
      totalScore := totalScore + fieldScore;
      assert Acc(totalScore, matchTypeScores, matchedFields) == FieldStep(before, r, field, query, opts, decay);
    }
    if opts.includeSemantic && totalScore == 0.0 {
      var semanticScore := Semantic.SemanticScore(r, query);
      if semanticScore > 0.0 {
        totalScore := totalScore + semanticScore;
        matchTypeScores := SetTypeScore(matchTypeScores, SemanticMatch, semanticScore);
        matchedFields := matchedFields + ["semantic"];
      }
    }
    var primaryMatchType := PrimaryMatchType(totalScore, matchTypeScores);
    a := Analysis(Round2(totalScore), primaryMatchType, Semantic.Dedup(matchedFields));
  }

  /** What the loop state keeps: a non-negative total that is 0 exactly when no type
      has a score, every type score positive, field names recorded exactly for the
      types that scored, and no type outside the tiers that may fire. */
  ghost predicate AccInvariant(acc: Acc, opts: AnalyzeOptions) {
    && acc.total >= 0.0
    && (acc.total == 0.0 <==> acc.typeScores == [])
    && (acc.typeScores == [] <==> acc.matched == [])
    && (forall i :: 0 <= i < |acc.typeScores| ==> acc.typeScores[i].1 > 0.0)
    && (forall i :: 0 <= i < |acc.typeScores| ==>
          acc.typeScores[i].0 in {Exact, Prefix, Substring, SubstringRestricted, Fuzzy, SemanticMatch})
    && (!opts.includeFuzzy ==> forall i :: 0 <= i < |acc.typeScores| ==> acc.typeScores[i].0 != Fuzzy)
    && (!opts.includeSemantic ==> forall i :: 0 <= i < |acc.typeScores| ==> acc.typeScores[i].0 != SemanticMatch)
  }

  lemma AddTypeScoreKeeps(ts: seq<(MatchType, real)>, k: MatchType, v: real)
    requires v > 0.0 && forall i :: 0 <= i < |ts| ==> ts[i].1 > 0.0
    ensures var ts' := AddTypeScore(ts, k, v);
      && |ts'| > 0
      && (forall i :: 0 <= i < |ts'| ==> ts'[i].1 > 0.0)
      && (forall i :: 0 <= i < |ts'| ==> ts'[i].0 == k || exists j :: 0 <= j < |ts| && ts'[i].0 == ts[j].0)
  {
    var ts' := AddTypeScore(ts, k, v);
    forall i | 0 <= i < |ts'| ensures ts'[i].0 == k || exists j :: 0 <= j < |ts| && ts'[i].0 == ts[j].0 {
      if i < |ts| && ts'[i].0 != k {
        assert ts'[i] == ts[i];
      }
    }
  }

  lemma FieldStepKeeps(acc: Acc, r: Record, f: Field, query: string, opts: AnalyzeOptions, decay: nat -> real)
    requires DecayBounded(decay) && AccInvariant(acc, opts)
    requires forall i :: 0 <= i < |acc.typeScores| ==> acc.typeScores[i].0 != SemanticMatch
    ensures AccInvariant(FieldStep(acc, r, f, query, opts, decay), opts)
    ensures var acc' := FieldStep(acc, r, f, query, opts, decay);
      forall i :: 0 <= i < |acc'.typeScores| ==> acc'.typeScores[i].0 != SemanticMatch
  {
    var v := FieldValue(r, f);
    if v.Some? && v.value != "" {
      var tier := ClassifyField(v.value, query, Weight(f), opts.includeFuzzy);
      ClassifyFieldScores(v.value, query, Weight(f), opts.includeFuzzy);
      DecayNeverRaises(tier.score, |v.value|, decay);
      var score := Decayed(tier.score, |v.value|, decay);
      TierStepKeeps(acc, tier.kind, score, FieldName(f), opts);
    }
  }

  /** The loop state after adding one field's tier and decayed score. */
  function TierStep(acc: Acc, kind: Option<MatchType>, score: real, name: string): Acc {
    if kind.Some? then Acc(acc.total + score, AddTypeScore(acc.typeScores, kind.value, score), acc.matched + [name])
    else Acc(acc.total + score, acc.typeScores, acc.matched)
  }

  lemma TierStepKeeps(acc: Acc, kind: Option<MatchType>, score: real, name: string, opts: AnalyzeOptions)
    requires AccInvariant(acc, opts)
    requires forall i :: 0 <= i < |acc.typeScores| ==> acc.typeScores[i].0 != SemanticMatch
    requires kind.Some? <==> score > 0.0
    requires kind.None? ==> score == 0.0
    requires kind.Some? ==> kind.value in {Exact, Prefix, Substring, SubstringRestricted, Fuzzy}
    requires kind == Some(Fuzzy) ==> opts.includeFuzzy
    ensures AccInvariant(TierStep(acc, kind, score, name), opts)
    ensures forall i :: 0 <= i < |TierStep(acc, kind, score, name).typeScores| ==>
      TierStep(acc, kind, score, name).typeScores[i].0 != SemanticMatch
  {
    if kind.Some? {
      AddTypeScoreKeeps(acc.typeScores, kind.value, score);
    }
  }

  lemma {:induction false} AccumulateFieldsInvariant(r: Record, query: string, opts: AnalyzeOptions, decay: nat -> real, n: nat)
    requires DecayBounded(decay) && n <= |SearchableFields|
    ensures AccInvariant(AccumulateFields(r, query, opts, decay, n), opts)
    ensures forall i :: 0 <= i < |AccumulateFields(r, query, opts, decay, n).typeScores| ==>
      AccumulateFields(r, query, opts, decay, n).typeScores[i].0 != SemanticMatch
  {
    if n > 0 {
      AccumulateFieldsInvariant(r, query, opts, decay, n - 1);
      FieldStepKeeps(AccumulateFields(r, query, opts, decay, n - 1), r, SearchableFields[n - 1], query, opts, decay);
    }
  }

  /** The field loop records each searched field's name at most once, and only names
      of searched fields. */
  lemma {:induction false} AccumulateFieldsNames(r: Record, query: string, opts: AnalyzeOptions, decay: nat -> real, n: nat)
    requires n <= |SearchableFields|
    ensures forall x :: x in AccumulateFields(r, query, opts, decay, n).matched ==>
      exists k :: 0 <= k < n && x == FieldName(SearchableFields[k])
    ensures forall i, j :: 0 <= i < j < |AccumulateFields(r, query, opts, decay, n).matched| ==>
      AccumulateFields(r, query, opts, decay, n).matched[i] != AccumulateFields(r, query, opts, decay, n).matched[j]
  {
    if n > 0 {
      AccumulateFieldsNames(r, query, opts, decay, n - 1);
      var m := AccumulateFields(r, query, opts, decay, n - 1).matched;
      var m' := AccumulateFields(r, query, opts, decay, n).matched;
      var f := SearchableFields[n - 1];
      assert m' == m || m' == m + [FieldName(f)];
      forall x | x in m ensures x != FieldName(f) {
        var k :| 0 <= k < n - 1 && x == FieldName(SearchableFields[k]);
        FieldNamesDistinct(f, SearchableFields[k]);
      }
      if m' != m {
        forall i, j | 0 <= i < j < |m'| ensures m'[i] != m'[j] {
          assert m'[i] == m[i] && m[i] in m;
          if j < |m| {
            assert m'[j] == m[j];
          }
        }
      }
      forall x | x in m' ensures exists k :: 0 <= k < n && x == FieldName(SearchableFields[k]) {
        if x in m {
          var k :| 0 <= k < n - 1 && x == FieldName(SearchableFields[k]);
          assert 0 <= k < n;
        } else {
          assert x == FieldName(SearchableFields[n - 1]);
        }
      }
    }
  }

  /** The dominant match type is the first entry, in insertion order, of greatest
      score: the stable sort by descending score puts it first. */
  lemma PrimaryMatchTypeIsFirstMax(ts: seq<(MatchType, real)>)
    requires |ts| > 0
    ensures var k := PrimaryMatchType(1.0, ts);
      exists i :: 0 <= i < |ts| && ts[i].0 == k
        && (forall j :: 0 <= j < |ts| ==> ts[j].1 <= ts[i].1)
        && (forall j :: 0 <= j < i ==> ts[j].1 < ts[i].1)
  {
    var sorted := Ranking.SortDesc(ts, EntryScoreOf);
    Ranking.SortDescSpec(ts, EntryScoreOf);
    var top := sorted[0];
    SortedHeadIsMax(ts, sorted);
    var v := top.1;
    assert Ranking.WithKey(sorted, EntryScoreOf, v) == Ranking.WithKey(ts, EntryScoreOf, v);
    assert Ranking.WithKey(sorted, EntryScoreOf, v)[0] == top;
    var i := FirstWithKey(ts, v);
    assert ts[i].0 == PrimaryMatchType(1.0, ts);
    assert forall j :: 0 <= j < i ==> ts[j].1 < ts[i].1;
  }

  lemma SortedHeadIsMax(ts: seq<(MatchType, real)>, sorted: seq<(MatchType, real)>)
    requires |sorted| > 0 && multiset(sorted) == multiset(ts)
    requires Ranking.SortedDesc(sorted, EntryScoreOf)
    ensures forall j :: 0 <= j < |ts| ==> ts[j].1 <= sorted[0].1
  {
    forall j | 0 <= j < |ts| ensures ts[j].1 <= sorted[0].1 {
      assert ts[j] in multiset(sorted);
      var m :| 0 <= m < |sorted| && sorted[m] == ts[j];
      if m > 0 {
        assert EntryScoreOf(sorted[0]) >= EntryScoreOf(sorted[m]);
      }
    }
  }

  /** The first element of `WithKey(s, key, v)` is the first element of `s` with key `v`. */
  lemma {:induction false} FirstWithKey(s: seq<(MatchType, real)>, v: real) returns (i: nat)
    requires Ranking.WithKey(s, EntryScoreOf, v) != []
    ensures i < |s| && s[i] == Ranking.WithKey(s, EntryScoreOf, v)[0]
    ensures s[i].1 == v && forall j :: 0 <= j < i ==> s[j].1 != v
  {
    if s[0].1 == v {
      i := 0;
    } else {
      assert Ranking.WithKey(s, EntryScoreOf, v) == Ranking.WithKey(s[1..], EntryScoreOf, v);
      var i' := FirstWithKey(s[1..], v);
      i := i' + 1;
    }
  }

  /** What `analyzeEntryMatch` promises its callers: a non-negative rounded score;
      `no_match` exactly when no field was recorded, and then a score of 0; a dominant
      type that is one of the tiers that can fire (never whole word, never unknown);
      no fuzzy or semantic type unless enabled; a semantic match exactly when semantic
      search is on, no field matched and some semantic term matches, scoring exactly
      the flat bonus with "semantic" as its only field; and matched fields that are
      distinct field names or "semantic". */
  lemma AnalyzeEntrySpec(r: Record, query: string, opts: AnalyzeOptions, decay: nat -> real)
    requires DecayBounded(decay)
    ensures var a := AnalyzeEntry(r, query, opts, decay);
      && a.score >= 0.0
      && a.matchType in {NoMatch, Exact, Prefix, Substring, SubstringRestricted, Fuzzy, SemanticMatch}
      && (a.matchType == NoMatch <==> a.matchedFields == [])
      && (a.matchType == NoMatch ==> a.score == 0.0)
      && (!opts.includeFuzzy ==> a.matchType != Fuzzy)
      && (!opts.includeSemantic ==> a.matchType != SemanticMatch)
      && (a.matchType == SemanticMatch ==> a.score == SemanticMatchPoints && a.matchedFields == ["semantic"])
      && (a.matchType == SemanticMatch <==>
            opts.includeSemantic && AccumulateFields(r, query, opts, decay, |SearchableFields|).total == 0.0 &&
            Semantic.SemanticScore(r, query) > 0.0)
      && (forall i, j :: 0 <= i < j < |a.matchedFields| ==> a.matchedFields[i] != a.matchedFields[j])
      && (forall x :: x in a.matchedFields ==> x == "semantic" || exists f :: x == FieldName(f))
  {
    var n := |SearchableFields|;
    var acc0 := AccumulateFields(r, query, opts, decay, n);
    AccumulateFieldsInvariant(r, query, opts, decay, n);
    AccumulateFieldsNames(r, query, opts, decay, n);
    var acc := WithSemantic(acc0, r, query, opts);
    var a := AnalyzeEntry(r, query, opts, decay);
    Round2Spec(acc.total);
    if acc != acc0 {
      var s := Semantic.SemanticScore(r, query);
      assert acc0.typeScores == [] && acc0.matched == [];
      assert acc.typeScores == [(SemanticMatch, s)];
      assert acc.matched == ["semantic"];
      assert Ranking.SortDesc(acc.typeScores, EntryScoreOf) == [(SemanticMatch, s)];
      assert s == 15.0;
      assert (15.0 * 100.0 + 0.5).Floor == 1500;
      assert Semantic.Dedup(acc.matched) == ["semantic"];
    } else if acc.total > 0.0 {
      PrimaryMatchTypeIsFirstMax(acc.typeScores);
      assert PrimaryMatchType(acc.total, acc.typeScores) == PrimaryMatchType(1.0, acc.typeScores);
    }
  }
}
