/** The semantic-term heuristic: candidate terms taken from an entry's translation
    (split on delimiters) and from parenthesised groups in its example, and the flat
    bonus awarded when the query and one of those terms contain each other. */
module Semantic {
  import opened Strings
  import opened Wrappers
  import opened Records
  import Classifiers

  /** The delimiters of `/[,;\/\(\)]/`. */
  const TranslationDelimiters: set<char> := {',', ';', '/', '(', ')'}

  /** A term is kept when its length lies strictly between 2 and `maxLength`. */
  predicate KeptLength(term: string, maxLength: nat) {
    2 < |term| < maxLength
  }

  /** `sources.map(clean).filter(t => t.length > 2 && t.length < maxLength)`. */
  function KeptTerms(sources: seq<string>, clean: string -> string, maxLength: nat): (terms: seq<string>)
    ensures |terms| <= |sources|
  {
    if sources == [] then []
    else
      var rest := KeptTerms(sources[1..], clean, maxLength);
      var t := clean(sources[0]);
      if KeptLength(t, maxLength) then [t] + rest else rest
  }

  /** A term is kept exactly when it is some source, cleaned, of a kept length. */
  lemma {:induction false} KeptTermsMembers(sources: seq<string>, clean: string -> string, maxLength: nat, t: string)
    ensures t in KeptTerms(sources, clean, maxLength) <==> exists p :: p in sources && t == clean(p) && KeptLength(t, maxLength)
  {
    if sources != [] {
      KeptTermsMembers(sources[1..], clean, maxLength, t);
      if exists p :: p in sources && t == clean(p) && KeptLength(t, maxLength) {
        var p :| p in sources && t == clean(p) && KeptLength(t, maxLength);
        if p != sources[0] {
          assert p in sources[1..];
        }
      }
      if exists p :: p in sources[1..] && t == clean(p) && KeptLength(t, maxLength) {
        var p :| p in sources[1..] && t == clean(p) && KeptLength(t, maxLength);
        assert p in sources;
      }
    }
  }

  /** The cleaning of a translation piece: trimmed and lower-cased. */
  function CleanPiece(piece: string): string {
    Lower(Trim(piece))
  }

  /** The cleaning of an example group: parentheses removed, trimmed, lower-cased. */
  function CleanGroup(group: string): string {
    Lower(Trim(RemoveParens(group)))
  }

  /** The matches of the global regular expression `/\(([^)]+)\)/g`, scanning from the
      left: at an opening parenthesis, a match runs to the next closing parenthesis if
      at least one character lies between them; otherwise the scan moves on by one. */
  function ParenGroups(s: string): (groups: seq<string>)
    ensures forall g :: g in groups ==> IsParenGroup(g)
    decreases |s|
  {
    if s == [] then []
    else if s[0] == '(' then
      var k := 1 + IndexOfAny(s[1..], {')'});
      if k < |s| && k >= 2 then
        var g := s[..k + 1];
        assert IsParenGroup(g) by {
          forall i | 1 <= i < k ensures g[i] != ')' {
            assert g[i] == s[1..][i - 1];
          }
        }
        [g] + ParenGroups(s[k + 1..])
      else ParenGroups(s[1..])
    else ParenGroups(s[1..])
  }

  /** The shape of one match: an opening parenthesis, at least one character that is
      not a closing parenthesis, and a closing parenthesis. */
  predicate IsParenGroup(g: string) {
    && |g| >= 3
    && g[0] == '(' && g[|g| - 1] == ')'
    && forall i :: 1 <= i < |g| - 1 ==> g[i] != ')'
  }

  /** `s.replace(/[()]/g, "")`. */
  function RemoveParens(s: string): (r: string)
    ensures forall i :: 0 <= i < |r| ==> r[i] != '(' && r[i] != ')'
    ensures |r| <= |s|
  {
    if s == [] then []
    else if s[0] == '(' || s[0] == ')' then RemoveParens(s[1..])
    else [s[0]] + RemoveParens(s[1..])
  }

  /** Deleting parentheses works character by character: it distributes over
      concatenation, drops a parenthesis and keeps any other character. */
  lemma {:induction false} RemoveParensConcat(a: string, b: string)
    ensures RemoveParens(a + b) == RemoveParens(a) + RemoveParens(b)
    ensures forall c :: RemoveParens([c]) == if c == '(' || c == ')' then [] else [c]
  {
    if a == [] {
      assert a + b == b;
    } else {
      assert (a + b)[0] == a[0];
      assert (a + b)[1..] == a[1..] + b;
      RemoveParensConcat(a[1..], b);
    }
  }

  /** Scanning from the left, text without an opening parenthesis yields no match, and
      the first group after it is the first match; the scan resumes after that group. */
  lemma {:induction false} ParenGroupsStep(a: string, g: string, rest: string)
    requires forall k :: 0 <= k < |a| ==> a[k] != '('
    requires IsParenGroup(g)
    ensures ParenGroups(a + g + rest) == [g] + ParenGroups(rest)
  {
    var s := a + g + rest;
    if a == [] {
      assert s == g + rest;
      var k := 1 + IndexOfAny(s[1..], {')'});
      assert forall i :: 0 <= i < |g| - 2 ==> s[1..][i] == g[i + 1];
      assert s[1..][|g| - 2] == ')';
      assert k == |g| - 1;
      assert s[..k + 1] == g;
      assert s[k + 1..] == rest;
    } else {
      assert s[0] == a[0];
      assert s[1..] == a[1..] + g + rest;
      ParenGroupsStep(a[1..], g, rest);
    }
  }

  /** Text with no closing parenthesis holds no match, so an opening parenthesis that
      never closes ends the scan. */
  lemma {:induction false} ParenGroupsUnclosed(s: string)
    requires forall k :: 0 <= k < |s| ==> s[k] != ')'
    ensures ParenGroups(s) == []
  {
    if s != [] {
      if s[0] == '(' {
        var k := 1 + IndexOfAny(s[1..], {')'});
        assert k == |s|;
      }
      ParenGroupsUnclosed(s[1..]);
    }
  }

  /** Empty parentheses are no match: the scan moves past them and resumes after. */
  lemma {:induction false} ParenGroupsSkipsEmpty(a: string, rest: string)
    requires forall k :: 0 <= k < |a| ==> a[k] != '('
    ensures ParenGroups(a + "()" + rest) == ParenGroups(rest)
  {
    var s := a + "()" + rest;
    if a == [] {
      assert s[1..] == ")" + rest;
      assert IndexOfAny(s[1..], {')'}) == 0;
      assert (")" + rest)[1..] == rest;
    } else {
      assert s[0] == a[0];
      assert s[1..] == a[1..] + "()" + rest;
      ParenGroupsSkipsEmpty(a[1..], rest);
    }
  }

  /** `[...new Set(terms)]`: the first occurrence of each term, in order. */
  function Dedup(s: seq<string>): (r: seq<string>)
    ensures forall x :: x in r <==> x in s
    ensures forall i, j :: 0 <= i < j < |r| ==> r[i] != r[j]
  {
    if s == [] then []
    else
      var d := Dedup(s[..|s| - 1]);
      assert forall x :: x in s <==> x in s[..|s| - 1] || x == s[|s| - 1];
      if s[|s| - 1] in d then d else d + [s[|s| - 1]]
  }

  /** A field is used when it holds a non-empty string (the source's truthiness test). */
  function NonEmpty(v: Option<string>): Option<string> {
    if v.Some? && v.value != "" then v else None
  }

  /** `extractSemanticTerms`. */
  function ExtractSemanticTerms(r: Record): seq<string> {
    var fromTranslation :=
      match NonEmpty(r.translation)
      case Some(t) => KeptTerms(SplitOnAny(t, TranslationDelimiters), CleanPiece, 20)
      case None => [];
    var fromExample :=
      match NonEmpty(r.example)
      case Some(e) => KeptTerms(ParenGroups(e), CleanGroup, 30)
      case None => [];
    Dedup(fromTranslation + fromExample)
  }

  /** A term is extracted exactly when it is a cleaned piece of the translation (3 to
      19 characters) or a cleaned parenthesised group of the example (3 to 29
      characters). */
  lemma ExtractSemanticTermsMembers(r: Record, t: string)
    ensures t in ExtractSemanticTerms(r) <==>
      || (NonEmpty(r.translation).Some? &&
          exists p :: p in SplitOnAny(r.translation.value, TranslationDelimiters) && t == CleanPiece(p) && KeptLength(t, 20))
      || (NonEmpty(r.example).Some? &&
          exists g :: g in ParenGroups(r.example.value) && t == CleanGroup(g) && KeptLength(t, 30))
  {
    if NonEmpty(r.translation).Some? {
      KeptTermsMembers(SplitOnAny(r.translation.value, TranslationDelimiters), CleanPiece, 20, t);
    }
    if NonEmpty(r.example).Some? {
      KeptTermsMembers(ParenGroups(r.example.value), CleanGroup, 30, t);
    }
  }

  /** Every extracted term is distinct from the others, lower-cased, free of
      whitespace at both ends and between 3 and 29 characters long. */
  lemma ExtractSemanticTermsSpec(r: Record)
    ensures var terms := ExtractSemanticTerms(r);
      forall i, j :: 0 <= i < j < |terms| ==> terms[i] != terms[j]
    ensures forall t :: t in ExtractSemanticTerms(r) ==>
      && IsLowered(t) && 2 < |t| < 30
      && !IsJsSpace(t[0]) && !IsJsSpace(t[|t| - 1])
  {
    forall t | t in ExtractSemanticTerms(r)
      ensures IsLowered(t) && 2 < |t| < 30 && !IsJsSpace(t[0]) && !IsJsSpace(t[|t| - 1])
    {
      var src: string;
      if r.translation.Some? && r.translation.value != "" && t in KeptTerms(SplitOnAny(r.translation.value, TranslationDelimiters), CleanPiece, 20) {
        KeptTermsMembers(SplitOnAny(r.translation.value, TranslationDelimiters), CleanPiece, 20, t);
        var p :| p in SplitOnAny(r.translation.value, TranslationDelimiters) && t == CleanPiece(p) && KeptLength(t, 20);
        src := p;
      } else {
        assert r.example.Some? && r.example.value != "";
        KeptTermsMembers(ParenGroups(r.example.value), CleanGroup, 30, t);
        var g :| g in ParenGroups(r.example.value) && t == CleanGroup(g) && KeptLength(t, 30);
        src := RemoveParens(g);
      }
      TrimSpec(src);
      LowerIsLowered(Trim(src));
    }
  }

  /** `calculateSemanticScore`: the flat semantic bonus when the lower-cased query
      contains, or is contained in, one of the extracted terms; otherwise 0. */
  function SemanticScore(r: Record, query: string): (score: real)
    ensures score == Classifiers.SemanticMatchPoints || score == 0.0
    ensures score > 0.0 <==>
      exists t :: t in ExtractSemanticTerms(r) && (Contains(t, Lower(query)) || Contains(Lower(query), t))
  {
    var q := Lower(query);
    if exists t | t in ExtractSemanticTerms(r) :: Contains(t, q) || Contains(q, t)
    then Classifiers.SemanticMatchPoints
    else 0.0
  }

  /** An example holding one parenthesised definition yields it as a term: the group
      is found and cleaned to its trimmed, lower-cased inside. */
  lemma ParenthesisedDefinitionFound(before: string, inside: string)
    requires ')' !in inside && '(' !in inside && '(' !in before && |inside| > 0
    ensures ParenGroups(before + "(" + inside + ")") == ["(" + inside + ")"]
    ensures Lower(Trim(RemoveParens("(" + inside + ")"))) == Lower(Trim(inside))
  {
    assert before + "(" + inside + ")" == before + ("(" + inside + ")");
    ParenGroupsSkip(before, "(" + inside + ")");
    ParenGroupsSingle("(" + inside + ")");
    RemoveParensInside(inside);
  }

  /** A string that is one group from end to end is matched whole. */
  lemma ParenGroupsSingle(g: string)
    requires IsParenGroup(g)
    ensures ParenGroups(g) == [g]
  {
    var k := 1 + IndexOfAny(g[1..], {')'});
    assert k == |g| - 1 by {
      assert g[1..][|g| - 2] == ')';
    }
    assert g[..k + 1] == g;
    assert ParenGroups(g[k + 1..]) == [] by {
      assert g[k + 1..] == [];
    }
  }

  lemma {:induction false} ParenGroupsSkip(before: string, rest: string)
    requires '(' !in before
    ensures ParenGroups(before + rest) == ParenGroups(rest)
  {
    if before != [] {
      var s := before + rest;
      assert s[0] == before[0] != '(';
      assert s[1..] == before[1..] + rest;
      assert ParenGroups(s) == ParenGroups(s[1..]);
      ParenGroupsSkip(before[1..], rest);
    } else {
      assert before + rest == rest;
    }
  }

  lemma {:induction false} RemoveParensKeeps(s: string)
    requires ')' !in s && '(' !in s
    ensures RemoveParens(s) == s
  {
    if s != [] {
      RemoveParensKeeps(s[1..]);
    }
  }

  lemma RemoveParensInside(inside: string)
    requires ')' !in inside && '(' !in inside
    ensures RemoveParens("(" + inside + ")") == inside
  {
    var s := "(" + inside + ")";
    assert s[1..] == inside + ")";
    RemoveParensAppendClose(inside);
  }

  lemma {:induction false} RemoveParensAppendClose(s: string)
    requires ')' !in s && '(' !in s
    ensures RemoveParens(s + ")") == s
  {
    if s == [] {
      assert RemoveParens(")") == RemoveParens([]);
    } else {
      assert (s + ")")[1..] == s[1..] + ")";
      RemoveParensAppendClose(s[1..]);
    }
  }
}
