/** The page selection of the PDF loading script: the page-range parser shared by
    its `split` and `read_pages` commands, the page number read back from a split
    file's name, and the range checks both commands make. Reading and writing PDF
    and text files is not modelled; page and file counts are parameters. */
module PageRanges {
  import opened Wrappers
  import opened Strings
  import Ranking

  // ===== Python string helpers =====

  /** Python's `str.isspace` characters: tab through carriage return, the file,
      group, record and unit separators, space, next line, the Unicode space
      separators and the line/paragraph separators. Unlike JavaScript's class it
      omits the byte-order mark. */
  predicate IsPySpace(c: char) {
    || c == ' '
    || ('\t' <= c <= '\r')
    || ('\U{1C}' <= c <= '\U{1F}')
    || c == '\U{85}' || c == '\U{A0}' || c == '\U{1680}'
    || ('\U{2000}' <= c <= '\U{200A}')
    || c == '\U{2028}' || c == '\U{2029}' || c == '\U{202F}' || c == '\U{205F}'
    || c == '\U{3000}'
  }

  function StripStart(s: string): (r: string)
    ensures |r| <= |s| && r == s[|s| - |r|..]
    ensures r == [] || !IsPySpace(r[0])
    ensures forall k :: 0 <= k < |s| - |r| ==> IsPySpace(s[k])
  {
    if s == [] || !IsPySpace(s[0]) then s else StripStart(s[1..])
  }

  function StripEnd(s: string): (r: string)
    ensures |r| <= |s| && r == s[..|r|]
    ensures r == [] || !IsPySpace(r[|r| - 1])
    ensures forall k :: |r| <= k < |s| ==> IsPySpace(s[k])
  {
    if s == [] || !IsPySpace(s[|s| - 1]) then s else StripEnd(s[..|s| - 1])
  }

  /** `str.strip()`: the input without its leading and trailing whitespace. */
  function Strip(s: string): (r: string)
    ensures |r| <= |s|
    ensures r == [] || (!IsPySpace(r[0]) && !IsPySpace(r[|r| - 1]))
    ensures (forall k :: 0 <= k < |s| ==> !IsPySpace(s[k])) ==> r == s
  {
    StripEnd(StripStart(s))
  }

  // ===== parse_page_ranges =====

  /** `range(lo, hi)` as a list. */
  function Range(lo: nat, hi: nat): (r: seq<nat>)
    ensures forall n :: n in r <==> lo <= n < hi
    ensures |r| == if hi <= lo then 0 else hi - lo
    ensures forall k :: 0 <= k < |r| ==> r[k] == lo + k
    decreases hi
  {
    if hi <= lo then [] else Range(lo, hi - 1) + [hi - 1]
  }

  predicate StrictlyIncreasing(s: seq<nat>) {
    forall i, j :: 0 <= i < j < |s| ==> s[i] < s[j]
  }

  /** Inserts `x` into a strictly increasing list unless it is already there. */
  function InsertSorted(x: nat, s: seq<nat>): (r: seq<nat>)
    requires StrictlyIncreasing(s)
    ensures StrictlyIncreasing(r)
    ensures forall n :: n in r <==> n == x || n in s
  {
    if s == [] then [x]
    else if x < s[0] then [x] + s
    else if x == s[0] then s
    else
      var rest := InsertSorted(x, s[1..]);
      assert forall n :: n in s <==> n == s[0] || n in s[1..];
      assert forall k :: 0 <= k < |rest| ==> s[0] < rest[k] by {
        forall k | 0 <= k < |rest| ensures s[0] < rest[k] {
          assert rest[k] in rest;
        }
      }
      [s[0]] + rest
  }

  /** `sorted(set(xs))`: the distinct elements of `xs` in increasing order. */
  function SortedDistinct(xs: seq<nat>): (r: seq<nat>)
    ensures StrictlyIncreasing(r)
    ensures forall n :: n in r <==> n in xs
  {
    if xs == [] then []
    else
      assert forall n :: n in xs <==> n in xs[..|xs| - 1] || n == xs[|xs| - 1];
      InsertSorted(xs[|xs| - 1], SortedDistinct(xs[..|xs| - 1]))
  }

  /** A strictly increasing list is determined by its elements, so `SortedDistinct`
      is the only strictly increasing list of the distinct elements. */
  lemma {:induction false} StrictlyIncreasingUnique(a: seq<nat>, b: seq<nat>)
    requires StrictlyIncreasing(a) && StrictlyIncreasing(b)
    requires forall n :: n in a <==> n in b
    ensures a == b
  {
    if a != [] {
      assert a[0] in b;
    }
    if b != [] {
      assert b[0] in a;
    }
    if a != [] && b != [] {
      var i :| 0 <= i < |a| && a[i] == b[0];
      var j :| 0 <= j < |b| && b[j] == a[0];
      assert a[0] <= a[i];
      assert b[0] <= b[j];
      forall n ensures n in a[1..] <==> n in b[1..] {
        assert n in a <==> n == a[0] || n in a[1..];
        assert n in b <==> n == b[0] || n in b[1..];
        if n in a[1..] {
          var k :| 0 <= k < |a[1..]| && a[1..][k] == n;
          assert a[k + 1] == n;
        }
        if n in b[1..] {
          var k :| 0 <= k < |b[1..]| && b[1..][k] == n;
          assert b[k + 1] == n;
        }
      }
      StrictlyIncreasingUnique(a[1..], b[1..]);
      assert a == [a[0]] + a[1..];
      assert b == [b[0]] + b[1..];
    }
  }

  /** What one stripped comma-separated part adds to the page list: a part with a
      dash adds `start..end` inclusive when it splits at dashes into exactly two
      all-digit pieces, and nothing otherwise; a part without one adds its value
      when it is all digits, and nothing otherwise. */
  function PartPages(part: string): seq<nat> {
    if '-' in part then
      var startEnd := SplitOnAny(part, {'-'});
      if |startEnd| == 2 && IsAllDigits(startEnd[0]) && IsAllDigits(startEnd[1]) then
        Range(DecimalValue(startEnd[0]), DecimalValue(startEnd[1]) + 1)
      else []
    else if IsAllDigits(part) then [DecimalValue(part)]
    else []
  }

  /** The page list before deduplication: the parts' contributions in order. */
  function Contributed(parts: seq<string>): seq<nat> {
    if parts == [] then []
    else Contributed(parts[..|parts| - 1]) + PartPages(Strip(parts[|parts| - 1]))
  }

  /** `parse_page_ranges`' result. */
  function PageRangesOf(pageStr: string): seq<nat> {
    SortedDistinct(Contributed(SplitOnAny(pageStr, {','})))
  }

  /** `parse_page_ranges`. */
  method ParsePageRanges(pageStr: string) returns (pages: seq<nat>)
    ensures pages == PageRangesOf(pageStr)
  {
    var pageNumbers: seq<nat> := [];
    var parts := SplitOnAny(pageStr, {','});
    var k := 0;
    while k < |parts|
      invariant 0 <= k <= |parts|
      invariant pageNumbers == Contributed(parts[..k])
    {
      var part := Strip(parts[k]);
      pageNumbers := AddPartPages(pageNumbers, part);
      assert parts[..k + 1][..k] == parts[..k];
      k := k + 1;
    }
    assert parts[..k] == parts;
    pages := SortedDistinct(pageNumbers);
  }

  /** The loop body of `parse_page_ranges` for one stripped part. */
  method AddPartPages(pageNumbers: seq<nat>, part: string) returns (extended: seq<nat>)
    ensures extended == pageNumbers + PartPages(part)
  {
    extended := pageNumbers;
    if '-' in part {
      var startEnd := SplitOnAny(part, {'-'});
      if |startEnd| == 2 && IsAllDigits(startEnd[0]) && IsAllDigits(startEnd[1]) {
        var start := DecimalValue(startEnd[0]);
        var end := DecimalValue(startEnd[1]);
        extended := extended + Range(start, end + 1);
      }
    } else if IsAllDigits(part) {
      extended := extended + [DecimalValue(part)];
    }
  }

  /** A range part: a dash at `i` with all-digit text on both sides, and `n` between
      the two values. */
  predicate RangeAt(part: string, i: nat, n: nat) {
    && i < |part| && part[i] == '-'
    && IsAllDigits(part[..i]) && IsAllDigits(part[i + 1..])
    && DecimalValue(part[..i]) <= n <= DecimalValue(part[i + 1..])
  }

  /** The reference definition of what a stripped part contributes. */
  predicate Contributes(part: string, n: nat) {
    (exists i :: 0 <= i < |part| && RangeAt(part, i, n)) || (IsAllDigits(part) && n == DecimalValue(part))
  }

  /** Splitting at dashes gives exactly two pieces when the string has exactly one
      dash, and the pieces are the text on either side of it. */
  lemma SplitAtOneDash(s: string, i: nat)
    requires i < |s| && s[i] == '-'
    requires forall k :: 0 <= k < |s| && k != i ==> s[k] != '-'
    ensures SplitOnAny(s, {'-'}) == [s[..i], s[i + 1..]]
  {
    assert IndexOfAny(s, {'-'}) == i;
    SplitOnAnyNoSeparator(s[i + 1..], {'-'});
  }

  lemma TwoPiecesHaveOneDash(s: string)
    requires |SplitOnAny(s, {'-'})| == 2
    ensures var i := IndexOfAny(s, {'-'});
      i < |s| && SplitOnAny(s, {'-'}) == [s[..i], s[i + 1..]]
  {
    var i := IndexOfAny(s, {'-'});
    var rest := SplitOnAny(s[i + 1..], {'-'});
    assert IndexOfAny(s[i + 1..], {'-'}) == |s[i + 1..]|;
  }

  /** The parser's treatment of one part agrees with the reference definition. */
  lemma PartPagesSpec(part: string, n: nat)
    ensures n in PartPages(part) <==> Contributes(part, n)
  {
    if '-' in part {
      assert !IsAllDigits(part);
      var startEnd := SplitOnAny(part, {'-'});
      if |startEnd| == 2 && IsAllDigits(startEnd[0]) && IsAllDigits(startEnd[1]) {
        TwoPiecesHaveOneDash(part);
        var i := IndexOfAny(part, {'-'});
        if n in PartPages(part) {
          assert RangeAt(part, i, n);
        }
      }
      if exists i :: 0 <= i < |part| && RangeAt(part, i, n) {
        var i :| 0 <= i < |part| && RangeAt(part, i, n);
        forall k | 0 <= k < |part| && k != i ensures part[k] != '-' {
          if k < i { assert part[k] == part[..i][k]; } else { assert part[k] == part[i + 1..][k - i - 1]; }
        }
        SplitAtOneDash(part, i);
      }
    } else {
      forall i: nat ensures !RangeAt(part, i, n) {
        if i < |part| { assert part[i] in part; }
      }
    }
  }

  /** Some part of `parts`, stripped, contributes `n`. */
  predicate AnyContributes(parts: seq<string>, n: nat) {
    exists i :: 0 <= i < |parts| && Contributes(Strip(parts[i]), n)
  }

  /** Every page number the parts contribute comes from some part. */
  lemma {:induction false} ContributedHasSource(parts: seq<string>, n: nat)
    requires n in Contributed(parts)
    ensures AnyContributes(parts, n)
  {
    var init := parts[..|parts| - 1];
    var last := |parts| - 1;
    if n in Contributed(init) {
      ContributedHasSource(init, n);
      var i :| 0 <= i < |init| && Contributes(Strip(init[i]), n);
      assert parts[i] == init[i];
    } else {
      PartPagesSpec(Strip(parts[last]), n);
    }
  }

  /** Every page number some part contributes is in the parts' contribution. */
  lemma {:induction false} ContributedIncludes(parts: seq<string>, i: nat, n: nat)
    requires i < |parts| && Contributes(Strip(parts[i]), n)
    ensures n in Contributed(parts)
  {
    var init := parts[..|parts| - 1];
    var last := |parts| - 1;
    var tail := PartPages(Strip(parts[last]));
    assert Contributed(parts) == Contributed(init) + tail;
    if i < last {
      assert init[i] == parts[i];
      ContributedIncludes(init, i, n);
    } else {
      assert i == last;
      PartPagesSpec(Strip(parts[i]), n);
    }
  }

  /** A reversed range contributes nothing. */
  lemma ReversedRangeIgnored()
    ensures PartPages("5-3") == []
  {
    SplitAtOneDash("5-3", 1);
    assert "5-3"[..1] == "5" && "5-3"[2..] == "3";
  }

  /** A part with two dashes contributes nothing. */
  lemma TwoDashesIgnored()
    ensures PartPages("1-2-3") == []
  {
    assert IndexOfAny("1-2-3", {'-'}) == 1;
    assert "1-2-3"[2..] == "2-3";
    SplitAtOneDash("2-3", 1);
  }

  /** Spaces around the dash make the pieces non-numeric, so the range is ignored. */
  lemma SpacedRangeIgnored()
    ensures PartPages("5 - 8") == []
  {
    SplitAtOneDash("5 - 8", 2);
    assert "5 - 8"[..2] == "5 ";
    assert !IsAllDigits("5 ");
  }

  /** A non-number and the empty part contribute nothing; page 0 is accepted. */
  lemma SingleParts()
    ensures PartPages("a") == [] && PartPages("") == []
    ensures PartPages("0") == [0]
  {
    assert !IsDigit("a"[0]);
  }

  /** `parse_page_ranges` returns a strictly increasing list holding `n` exactly when
      some comma-separated part, stripped, is `n`'s digits or a range `a-b` of
      all-digit ends with `a <= n <= b`. */
  lemma ParsePageRangesSpec(pageStr: string, n: nat)
    ensures StrictlyIncreasing(PageRangesOf(pageStr))
    ensures n in PageRangesOf(pageStr) <==> AnyContributes(SplitOnAny(pageStr, {','}), n)
  {
    var parts := SplitOnAny(pageStr, {','});
    if n in Contributed(parts) {
      ContributedHasSource(parts, n);
    }
    if AnyContributes(parts, n) {
      var i :| 0 <= i < |parts| && Contributes(Strip(parts[i]), n);
      ContributedIncludes(parts, i, n);
    }
  }

  // ===== extract_page_number =====

  /** The first digit at or after `i`, or |s|. */
  function SkipNonDigits(s: string, i: nat): (j: nat)
    requires i <= |s|
    ensures i <= j <= |s|
    ensures j < |s| ==> IsDigit(s[j])
    ensures forall k :: i <= k < j ==> !IsDigit(s[k])
    decreases |s| - i
  {
    if i == |s| || IsDigit(s[i]) then i else SkipNonDigits(s, i + 1)
  }

  /** The first non-digit at or after `i`, or |s|. */
  function SkipDigits(s: string, i: nat): (j: nat)
    requires i <= |s|
    ensures i <= j <= |s|
    ensures j < |s| ==> !IsDigit(s[j])
    ensures forall k :: i <= k < j ==> IsDigit(s[k])
    decreases |s| - i
  {
    if i == |s| || !IsDigit(s[i]) then i else SkipDigits(s, i + 1)
  }

  /** `re.findall(r"\d+", s[i..])` for a start `i` that is not inside a run: the
      maximal runs of digits, left to right. */
  function DigitRuns(s: string, i: nat): (runs: seq<string>)
    requires i <= |s|
    ensures forall r :: r in runs ==> IsAllDigits(r)
    decreases |s| - i
  {
    var a := SkipNonDigits(s, i);
    if a == |s| then []
    else
      var b := SkipDigits(s, a);
      [s[a..b]] + DigitRuns(s, b)
  }

  /** `extract_page_number`: the value of the last digit run of the name, or 0 when
      the name has no digits. */
  function ExtractPageNumber(filename: string): nat {
    var runs := DigitRuns(filename, 0);
    if runs != [] then
      var last := runs[|runs| - 1];
      assert last in runs;
      DecimalValue(last)
    else 0
  }

  /** When `s[a..b]` is a maximal digit run with no digit after it, it is the last
      run found from any `i <= a` that does not start inside it. */
  lemma {:induction false} LastDigitRun(s: string, i: nat, a: nat, b: nat)
    requires i <= a < b <= |s|
    requires forall k :: a <= k < b ==> IsDigit(s[k])
    requires a == i || !IsDigit(s[a - 1])
    requires forall k :: b <= k < |s| ==> !IsDigit(s[k])
    ensures var runs := DigitRuns(s, i); runs != [] && runs[|runs| - 1] == s[a..b]
    decreases |s| - i
  {
    var a' := SkipNonDigits(s, i);
    var b' := SkipDigits(s, a');
    var runs := DigitRuns(s, i);
    assert IsDigit(s[a]);
    if a' == a {
      SkipDigitsTo(s, a, b);
      assert DigitRuns(s, b) == [];
      assert runs == [s[a..b]];
    } else {
      assert b' < a by {
        assert !IsDigit(s[a - 1]);
      }
      LastDigitRun(s, b', a, b);
      assert runs == [s[a'..b']] + DigitRuns(s, b');
    }
  }

  /** A run of digits from `i` that ends at `j` is skipped up to `j`. */
  lemma {:induction false} SkipDigitsTo(s: string, i: nat, j: nat)
    requires i <= j <= |s|
    requires forall k :: i <= k < j ==> IsDigit(s[k])
    requires j == |s| || !IsDigit(s[j])
    ensures SkipDigits(s, i) == j
    decreases j - i
  {
    if i < j {
      assert IsDigit(s[i]);
      SkipDigitsTo(s, i + 1, j);
    }
  }

  /** A name without digits has no runs. */
  lemma NoDigitsNoRuns(s: string)
    requires forall k :: 0 <= k < |s| ==> !IsDigit(s[k])
    ensures DigitRuns(s, 0) == []
  {
    assert SkipNonDigits(s, 0) == |s|;
  }

  /** `extract_page_number` returns the value of the last maximal digit run `s[a..b]`,
      and 0 for a name without digits. */
  lemma ExtractPageNumberSpec(s: string, a: nat, b: nat)
    requires a < b <= |s|
    requires forall k :: a <= k < b ==> IsDigit(s[k])
    requires a == 0 || !IsDigit(s[a - 1])
    requires forall k :: b <= k < |s| ==> !IsDigit(s[k])
    ensures ExtractPageNumber(s) == DecimalValue(s[a..b])
  {
    LastDigitRun(s, 0, a, b);
  }

  lemma ExtractPageNumberNoDigits(s: string)
    requires forall k :: 0 <= k < |s| ==> !IsDigit(s[k])
    ensures ExtractPageNumber(s) == 0
  {
    NoDigitsNoRuns(s);
  }

  /** The stem `split` gives the file of page `n`: `{base_name}_page_{n}`. */
  function SplitStem(baseName: string, n: nat): (stem: string)
    ensures |stem| > |baseName| + 6 && stem[..|baseName| + 6] == baseName + "_page_"
  {
    baseName + "_page_" + NatToDecimal(n)
  }

  /** Reading the page number back from a split file's stem gives the page, whatever
      digits the base name holds. */
  lemma SplitStemRoundTrip(baseName: string, n: nat)
    ensures ExtractPageNumber(SplitStem(baseName, n)) == n
  {
    var s := SplitStem(baseName, n);
    var a := |baseName| + 6;
    var digits := NatToDecimal(n);
    assert s[a..] == digits;
    assert s[a - 1] == '_';
    forall k | a <= k < |s| ensures IsDigit(s[k]) {
      assert s[k] == digits[k - a];
    }
    ExtractPageNumberSpec(s, a, |s|);
    assert s[a..|s|] == digits;
    DecimalRoundTrip(n);
  }

  // ===== the split and read_pages commands =====

  datatype CommandError =
    | DirectoryMissing
    | NoValidPages
    | PagesOutOfRange(invalid: seq<nat>, maxPage: nat)
    | NoTextFiles

  /** The parsed pages outside `1..maxPage`, in order. */
  function OutOfRange(pageNumbers: seq<nat>, maxPage: nat): (invalid: seq<nat>)
    ensures forall p :: p in invalid <==> p in pageNumbers && (p < 1 || p > maxPage)
    ensures |invalid| <= |pageNumbers|
  {
    if pageNumbers == [] then []
    else
      var p := pageNumbers[|pageNumbers| - 1];
      assert forall q :: q in pageNumbers <==> q in pageNumbers[..|pageNumbers| - 1] || q == p;
      OutOfRange(pageNumbers[..|pageNumbers| - 1], maxPage) + (if p < 1 || p > maxPage then [p] else [])
  }

  /** The pages `split` extracts from a PDF of `pageCount` pages: every page when
      `--pages` is absent or empty, and otherwise the parsed pages, provided there
      is one and all lie within the document. */
  function SplitPages(pages: Option<string>, pageCount: nat): Result<seq<nat>, CommandError> {
    if pages.Some? && pages.value != [] then
      var pageNumbers := PageRangesOf(pages.value);
      if pageNumbers == [] then Err(NoValidPages)
      else
        var invalid := OutOfRange(pageNumbers, pageCount);
        if invalid != [] then Err(PagesOutOfRange(invalid, pageCount))
        else Ok(pageNumbers)
    else Ok(Range(1, pageCount + 1))
  }

  /** `split` writes only pages of the document, in increasing order; it writes every
      page without a selection, rejects a selection that parses to nothing, and
      rejects one with a page outside `1..pageCount`, naming exactly those pages. */
  lemma SplitPagesSpec(pages: Option<string>, pageCount: nat)
    ensures var r := SplitPages(pages, pageCount);
      && (r.Ok? ==> StrictlyIncreasing(r.value) && forall p :: p in r.value ==> 1 <= p <= pageCount)
      && ((pages.None? || pages.value == []) ==> r == Ok(Range(1, pageCount + 1)))
      && (pages.Some? && pages.value != [] ==>
            && (r == Err(NoValidPages) <==> PageRangesOf(pages.value) == [])
            && (r.Ok? <==> (PageRangesOf(pages.value) != [] &&
                  forall p :: p in PageRangesOf(pages.value) ==> 1 <= p <= pageCount))
            && (r.Ok? ==> r.value == PageRangesOf(pages.value))
            && (r.Err? && r.error.PagesOutOfRange? ==>
                  forall p :: p in r.error.invalid <==> p in PageRangesOf(pages.value) && (p < 1 || p > pageCount)))
  {
    var r := SplitPages(pages, pageCount);
    if pages.Some? && pages.value != [] {
      var pageNumbers := PageRangesOf(pages.value);
      var invalid := OutOfRange(pageNumbers, pageCount);
      if invalid == [] {
        forall p | p in pageNumbers ensures 1 <= p <= pageCount {
          assert p !in invalid;
        }
      } else {
        assert invalid[0] in invalid;
      }
    } else {
      var all := Range(1, pageCount + 1);
      forall i, j | 0 <= i < j < |all| ensures all[i] < all[j] {
      }
    }
  }

  /** The files of the pages `split` wrote: the file of each page whose write
      succeeded, in page order; `written` stands for the outcome of each write. */
  function WrittenStems(baseName: string, pageNumbers: seq<nat>, written: nat -> bool): (stems: seq<string>)
    ensures |stems| <= |pageNumbers|
  {
    if pageNumbers == [] then []
    else
      var p := pageNumbers[|pageNumbers| - 1];
      WrittenStems(baseName, pageNumbers[..|pageNumbers| - 1], written) + (if written(p) then [SplitStem(baseName, p)] else [])
  }

  /** The extraction loop of `split`: it visits the pages in order, counts each page
      whose file was written and moves on past a failed write. */
  method WritePages(baseName: string, pageNumbers: seq<nat>, written: nat -> bool) returns (files: seq<string>, extractedCount: nat)
    ensures files == WrittenStems(baseName, pageNumbers, written)
    ensures extractedCount == |files|
  {
    files := [];
    extractedCount := 0;
    for k := 0 to |pageNumbers|
      invariant files == WrittenStems(baseName, pageNumbers[..k], written)
      invariant extractedCount == |files|
    {
      var pageNum := pageNumbers[k];
      assert pageNumbers[..k + 1][..k] == pageNumbers[..k];
      if written(pageNum) {
        files := files + [SplitStem(baseName, pageNum)];
        extractedCount := extractedCount + 1;
      }
    }
    assert pageNumbers[..|pageNumbers|] == pageNumbers;
  }

  /** When every write succeeds, the files are exactly the pages' files in order. */
  lemma {:induction false} AllWritten(baseName: string, pageNumbers: seq<nat>, written: nat -> bool)
    requires forall p :: p in pageNumbers ==> written(p)
    ensures |WrittenStems(baseName, pageNumbers, written)| == |pageNumbers|
    ensures forall k :: 0 <= k < |pageNumbers| ==>
      WrittenStems(baseName, pageNumbers, written)[k] == SplitStem(baseName, pageNumbers[k])
  {
    if pageNumbers != [] {
      var init := pageNumbers[..|pageNumbers| - 1];
      assert forall p :: p in init ==> p in pageNumbers;
      AllWritten(baseName, init, written);
      assert pageNumbers[|pageNumbers| - 1] in pageNumbers;
    }
  }

  /** The sort key that orders files by increasing page number. */
  function PageKey(stem: string): real {
    -(ExtractPageNumber(stem) as real)
  }

  /** `sorted(files, key=lambda x: extract_page_number(x.stem))`: the stems by
      increasing page number, equal page numbers keeping their listing order. */
  function SortByPage(stems: seq<string>): (sorted: seq<string>)
    ensures multiset(sorted) == multiset(stems)
    ensures forall i, j :: 0 <= i < j < |sorted| ==> ExtractPageNumber(sorted[i]) <= ExtractPageNumber(sorted[j])
  {
    Ranking.SortDescSpec(stems, PageKey);
    Ranking.SortDesc(stems, PageKey)
  }

  /** What `read_pages` does for one requested page. */
  datatype ReadOutcome =
    | Show(page: nat, file: string)
    | OutOfRangeWarning(page: nat, fileCount: nat)

  /** The outcome of each requested page against the files in page order: the file
      at the page's position, or a warning when there is no such position. */
  function ReadOutcomes(pageNumbers: seq<nat>, textFiles: seq<string>): (outcomes: seq<ReadOutcome>)
    ensures |outcomes| == |pageNumbers|
    ensures forall k :: 0 <= k < |pageNumbers| ==>
      && outcomes[k].page == pageNumbers[k]
      && (outcomes[k].Show? <==> 1 <= pageNumbers[k] <= |textFiles|)
      && (outcomes[k].Show? ==> outcomes[k].file == textFiles[pageNumbers[k] - 1])
  {
    seq(|pageNumbers|, k requires 0 <= k < |pageNumbers| =>
      var p := pageNumbers[k];
      if 1 <= p <= |textFiles| then Show(p, textFiles[p - 1]) else OutOfRangeWarning(p, |textFiles|))
  }

  /** `read_pages` on a directory listing `stems` (in any order): the directory must
      exist, the selection must parse to some page and there must be a text file;
      then each requested page in increasing order shows the file at that position
      in page order, or is skipped with a warning when there is no such position. */
  function ReadPages(directoryExists: bool, pages: string, stems: seq<string>): Result<seq<ReadOutcome>, CommandError> {
    if !directoryExists then Err(DirectoryMissing)
    else
      var pageNumbers := PageRangesOf(pages);
      if pageNumbers == [] then Err(NoValidPages)
      else
        var textFiles := SortByPage(stems);
        if textFiles == [] then Err(NoTextFiles)
        else Ok(ReadOutcomes(pageNumbers, textFiles))
  }

  /** Every file of the sorted listing is one of the listed files. */
  lemma SortByPageMembers(stems: seq<string>)
    ensures |SortByPage(stems)| == |stems|
    ensures forall i :: 0 <= i < |stems| ==> SortByPage(stems)[i] in stems
  {
    var sorted := SortByPage(stems);
    assert |sorted| == |multiset(sorted)| == |multiset(stems)| == |stems|;
    forall i | 0 <= i < |stems| ensures sorted[i] in stems {
      assert sorted[i] in multiset(sorted);
    }
  }

  /** `read_pages` fails only for a missing directory (checked first), an empty
      selection or an empty directory. */
  lemma ReadPagesErrors(directoryExists: bool, pages: string, stems: seq<string>)
    ensures var r := ReadPages(directoryExists, pages, stems);
      && (r.Err? <==> !directoryExists || PageRangesOf(pages) == [] || stems == [])
      && (r == Err(DirectoryMissing) <==> !directoryExists)
  {
    SortByPageMembers(stems);
  }

  /** `read_pages` answers each parsed page once, in increasing order, showing a file
      exactly when the page is within `1..` the number of files; the file shown is
      one of the listed ones, the one at the page's position in page order. */
  lemma ReadPagesSpec(pages: string, stems: seq<string>)
    ensures var r := ReadPages(true, pages, stems);
      r.Ok? ==>
        && |r.value| == |PageRangesOf(pages)|
        && forall k :: 0 <= k < |r.value| ==>
             var p := PageRangesOf(pages)[k];
             && r.value[k].page == p
             && (r.value[k].Show? <==> 1 <= p <= |stems|)
             && (r.value[k].Show? ==>
                   r.value[k].file in stems && r.value[k].file == SortByPage(stems)[p - 1])
  {
    SortByPageMembers(stems);
  }

  /** After `split` wrote every page of a `pageCount`-page document, the files listed
      in any order sort back into page order. */
  lemma FullSplitSortsBack(baseName: string, pageCount: nat, written: nat -> bool, stems: seq<string>)
    requires forall p :: written(p)
    requires multiset(stems) == multiset(WrittenStems(baseName, Range(1, pageCount + 1), written))
    ensures SortByPage(stems) == WrittenStems(baseName, Range(1, pageCount + 1), written)
  {
    var all := Range(1, pageCount + 1);
    var u := WrittenStems(baseName, all, written);
    AllWritten(baseName, all, written);
    forall k | 0 <= k < |u| ensures PageKey(u[k]) == -((k + 1) as real) {
      SplitStemRoundTrip(baseName, all[k]);
    }
    Ranking.SortDescSpec(stems, PageKey);
    Ranking.SortedDescUnique(SortByPage(stems), u, PageKey);
  }

  /** So `read_pages` after such a `split` shows, for each page it shows, the file
      that `split` wrote for that page. */
  lemma ReadAfterFullSplit(baseName: string, pageCount: nat, written: nat -> bool, pages: string, stems: seq<string>)
    requires forall p :: written(p)
    requires multiset(stems) == multiset(WrittenStems(baseName, Range(1, pageCount + 1), written))
    ensures var r := ReadPages(true, pages, stems);
      r.Ok? ==> forall k :: 0 <= k < |r.value| && r.value[k].Show? ==>
        r.value[k].file == SplitStem(baseName, r.value[k].page)
  {
    var u := WrittenStems(baseName, Range(1, pageCount + 1), written);
    FullSplitSortsBack(baseName, pageCount, written, stems);
    FullSplitStems(baseName, pageCount, written);
    ShowsOwnPage(baseName, PageRangesOf(pages), u);
  }

  /** A full split writes page `k + 1`'s stem in position `k`. */
  lemma FullSplitStems(baseName: string, pageCount: nat, written: nat -> bool)
    requires forall p :: written(p)
    ensures var u := WrittenStems(baseName, Range(1, pageCount + 1), written);
      forall k :: 0 <= k < |u| ==> u[k] == SplitStem(baseName, k + 1)
  {
    var all := Range(1, pageCount + 1);
    var u := WrittenStems(baseName, all, written);
    AllWritten(baseName, all, written);
    forall k | 0 <= k < |u| ensures u[k] == SplitStem(baseName, k + 1) {
      assert u[k] == SplitStem(baseName, all[k]);
      assert all[k] == k + 1;
    }
  }

  /** Reading against a listing whose `k`-th file is page `k + 1`'s stem shows each
      page its own stem. */
  lemma ShowsOwnPage(baseName: string, pageNumbers: seq<nat>, u: seq<string>)
    requires forall k :: 0 <= k < |u| ==> u[k] == SplitStem(baseName, k + 1)
    ensures var outcomes := ReadOutcomes(pageNumbers, u);
      forall k :: 0 <= k < |outcomes| && outcomes[k].Show? ==>
        outcomes[k].file == SplitStem(baseName, outcomes[k].page)
  {
    var outcomes := ReadOutcomes(pageNumbers, u);
    forall k | 0 <= k < |outcomes| && outcomes[k].Show?
      ensures outcomes[k].file == SplitStem(baseName, outcomes[k].page)
    {
      var p := outcomes[k].page;
      assert outcomes[k].file == u[p - 1];
    }
  }
}
