/** The entry router's own logic: flattening an imported wordbook into vocabulary
    entries, the shaping and error handling of `importFromJson`, `create` and
    `update`, the truncation done by the remote-data enrichment, and the paging
    arithmetic of the `search` handler. The entry table is the `rows` field of
    `EntryStore`; permission checks, generated ids, the clock and the remote
    dictionary lookups are parameters. */
module EntryRouter {
  import opened Wrappers
  import opened Records
  import opened SearchCache
  import opened Search
  import Ranking

  /** The errors the router's procedures raise. */
  datatype RouterError = Unauthorized | BadRequest | Forbidden | InternalServerError

  /** A stored entry: the searchable record (its `id` and six text columns) and the
      remaining columns. */
  datatype EntryRow = EntryRow(record: Record, dictionaryId: string, score: int, createdAt: int, updatedAt: int)

  // ===== Wordbook import =====

  datatype VocabularyItem = VocabularyItem(word: string, pronunciation: Option<string>, fullMatch: string)

  datatype PageData = PageData(filePath: string, fileName: string, matchCount: int, vocabulary: seq<VocabularyItem>)

  /** A document that passed the import schema. `pages` holds the entries of the
      `pages` object in the order `Object.entries` enumerates them; the `metadata`
      object is validated but never read, so it is not kept. */
  datatype ImportJson = ImportJson(pages: seq<(string, PageData)>)

  /** One vocabulary item tagged with the key of its page. */
  datatype VocabularyEntry = VocabularyEntry(word: string, pronunciation: Option<string>, page: string)

  function Tagged(page: string, item: VocabularyItem): VocabularyEntry {
    VocabularyEntry(item.word, item.pronunciation, page)
  }

  /** The entries of one page, in array order. */
  function PageEntries(page: string, items: seq<VocabularyItem>): (es: seq<VocabularyEntry>)
    ensures |es| == |items|
    ensures forall j :: 0 <= j < |es| ==> es[j] == Tagged(page, items[j])
  {
    if items == [] then []
    else PageEntries(page, items[..|items| - 1]) + [Tagged(page, items[|items| - 1])]
  }

  /** The entries of all pages, page by page. */
  function Flatten(pages: seq<(string, PageData)>): seq<VocabularyEntry> {
    if pages == [] then []
    else Flatten(pages[..|pages| - 1]) + PageEntries(pages[|pages| - 1].0, pages[|pages| - 1].1.vocabulary)
  }

  /** The number of vocabulary items over all pages. */
  function VocabularyCount(pages: seq<(string, PageData)>): nat {
    if pages == [] then 0
    else VocabularyCount(pages[..|pages| - 1]) + |pages[|pages| - 1].1.vocabulary|
  }

  /** `extractVocabularyEntries`. */
  method ExtractVocabularyEntries(parsedJson: ImportJson) returns (entries: seq<VocabularyEntry>)
    ensures entries == Flatten(parsedJson.pages)
  {
    var pages := parsedJson.pages;
    entries := [];
    var i := 0;
    while i < |pages|
      invariant 0 <= i <= |pages|
      invariant entries == Flatten(pages[..i])
    {
      var (pageNumber, pageData) := pages[i];
      entries := AppendPage(entries, pageNumber, pageData.vocabulary);
      FlattenSnoc(pages, i);
      i := i + 1;
    }
    assert pages[..i] == pages;
  }

  /** The inner loop of `extractVocabularyEntries`: one entry per item of a page. */
  method AppendPage(start: seq<VocabularyEntry>, pageNumber: string, vocabulary: seq<VocabularyItem>) returns (entries: seq<VocabularyEntry>)
    ensures entries == start + PageEntries(pageNumber, vocabulary)
  {
    entries := start;
    var j := 0;
    while j < |vocabulary|
      invariant 0 <= j <= |vocabulary|
      invariant entries == start + PageEntries(pageNumber, vocabulary[..j])
    {
      var vocabItem := vocabulary[j];
      PageEntriesSnoc(pageNumber, vocabulary, j);
      entries := entries + [VocabularyEntry(vocabItem.word, vocabItem.pronunciation, pageNumber)];
      j := j + 1;
    }
    assert vocabulary[..j] == vocabulary;
  }

  lemma PageEntriesSnoc(page: string, items: seq<VocabularyItem>, j: nat)
    requires j < |items|
    ensures PageEntries(page, items[..j + 1]) == PageEntries(page, items[..j]) + [Tagged(page, items[j])]
  {
    assert items[..j + 1][..j] == items[..j];
  }

  lemma FlattenSnoc(pages: seq<(string, PageData)>, i: nat)
    requires i < |pages|
    ensures Flatten(pages[..i + 1]) == Flatten(pages[..i]) + PageEntries(pages[i].0, pages[i].1.vocabulary)
  {
    assert pages[..i + 1][..i] == pages[..i];
  }

  /** One record per vocabulary item. */
  lemma {:induction false} FlattenLength(pages: seq<(string, PageData)>)
    ensures |Flatten(pages)| == VocabularyCount(pages)
  {
    if pages != [] {
      FlattenLength(pages[..|pages| - 1]);
    }
  }

  /** The pages are emitted in enumeration order: the records of a split document are
      the records of its first part followed by those of its second. */
  lemma {:induction false} FlattenConcat(a: seq<(string, PageData)>, b: seq<(string, PageData)>)
    ensures Flatten(a + b) == Flatten(a) + Flatten(b)
  {
    if b == [] {
      assert a + b == a;
    } else {
      var init, last := b[..|b| - 1], b[|b| - 1];
      var tail := PageEntries(last.0, last.1.vocabulary);
      FlattenConcat(a, init);
      assert (a + b)[..|a + b| - 1] == a + init;
      assert (a + b)[|a + b| - 1] == last;
      assert Flatten(a + b) == Flatten(a + init) + tail;
      assert Flatten(b) == Flatten(init) + tail;
      assert Flatten(a + b) == Flatten(a) + (Flatten(init) + tail);
    }
  }

  /** `e` is some page's item, tagged with that page's key. */
  predicate TaggedIn(pages: seq<(string, PageData)>, e: VocabularyEntry) {
    exists p, j :: 0 <= p < |pages| && 0 <= j < |pages[p].1.vocabulary| && e == Tagged(pages[p].0, pages[p].1.vocabulary[j])
  }

  /** A record is emitted exactly when it is some page's item, copied with its word and
      pronunciation and tagged with that page's key. */
  lemma {:induction false} FlattenMembership(pages: seq<(string, PageData)>, e: VocabularyEntry)
    ensures e in Flatten(pages) <==> TaggedIn(pages, e)
  {
    if pages != [] {
      var init := pages[..|pages| - 1];
      var last := pages[|pages| - 1];
      FlattenMembership(init, e);
      var tail := PageEntries(last.0, last.1.vocabulary);
      assert e in Flatten(pages) <==> e in Flatten(init) || e in tail;
      TaggedInSnoc(pages, e);
    }
  }

  lemma TaggedInSnoc(pages: seq<(string, PageData)>, e: VocabularyEntry)
    requires pages != []
    ensures var last := pages[|pages| - 1];
      TaggedIn(pages, e) <==> TaggedIn(pages[..|pages| - 1], e) || e in PageEntries(last.0, last.1.vocabulary)
  {
    var init := pages[..|pages| - 1];
    var last := pages[|pages| - 1];
    var tail := PageEntries(last.0, last.1.vocabulary);
    if e in tail {
      var j :| 0 <= j < |tail| && tail[j] == e;
      assert e == Tagged(pages[|pages| - 1].0, pages[|pages| - 1].1.vocabulary[j]);
    }
    if TaggedIn(init, e) {
      var p, j :| 0 <= p < |init| && 0 <= j < |init[p].1.vocabulary| && e == Tagged(init[p].0, init[p].1.vocabulary[j]);
      assert pages[p] == init[p];
    }
    if TaggedIn(pages, e) {
      var p, j :| 0 <= p < |pages| && 0 <= j < |pages[p].1.vocabulary| && e == Tagged(pages[p].0, pages[p].1.vocabulary[j]);
      if p < |init| {
        assert init[p] == pages[p];
      } else {
        assert tail[j] == e;
      }
    }
  }

  /** The note an imported entry carries. */
  function ImportNote(page: string): string {
    "Extracted from page " + page + " of wordbook"
  }

  /** The row inserted for one vocabulary entry. */
  function ImportedRow(v: VocabularyEntry, dictionaryId: string, id: string, now: int): EntryRow {
    EntryRow(Record(id, Some(v.word), None, None, v.pronunciation, None, Some(ImportNote(v.page))), dictionaryId, 0, now, now)
  }

  /** The rows inserted for `vs`; the k-th insert gets id `ids(k)` and time `clock(k)`. */
  function ImportedRows(vs: seq<VocabularyEntry>, dictionaryId: string, ids: nat -> string, clock: nat -> int): (rs: seq<EntryRow>)
    ensures |rs| == |vs|
  {
    if vs == [] then []
    else ImportedRows(vs[..|vs| - 1], dictionaryId, ids, clock) + [ImportedRow(vs[|vs| - 1], dictionaryId, ids(|vs| - 1), clock(|vs| - 1))]
  }

  /** The k-th imported row is built from the k-th entry with the k-th id and time. */
  lemma {:induction false} ImportedRowsAt(vs: seq<VocabularyEntry>, dictionaryId: string, ids: nat -> string, clock: nat -> int)
    ensures forall k :: 0 <= k < |vs| ==>
      ImportedRows(vs, dictionaryId, ids, clock)[k] == ImportedRow(vs[k], dictionaryId, ids(k), clock(k))
  {
    if vs != [] {
      var n := |vs| - 1;
      ImportedRowsAt(vs[..n], dictionaryId, ids, clock);
      forall k | 0 <= k < n
        ensures ImportedRows(vs, dictionaryId, ids, clock)[k] == ImportedRow(vs[k], dictionaryId, ids(k), clock(k))
      {
        assert vs[..n][k] == vs[k];
      }
    }
  }

  /** The success value of `importFromJson`. */
  datatype ImportSummary = ImportSummary(success: bool, count: nat, dictionaryId: string)

  /** The body of the handler's outer `try`, with the error it throws. The permission
      check's answer is `hasPermission`; `parsed` is the schema's verdict on the
      payload (`None` when it is rejected); `failAt` is the index of the first insert
      the database rejects, if any. Inserts made before a rejected one stay. */
  function ImportAttempt(rows: seq<EntryRow>, hasPermission: bool, parsed: Option<ImportJson>, dictionaryId: string,
                         ids: nat -> string, clock: nat -> int, failAt: Option<nat>)
    : (seq<EntryRow>, Result<ImportSummary, RouterError>)
  {
    if !hasPermission then (rows, Err(Forbidden))
    else if parsed.None? then (rows, Err(BadRequest))
    else
      var vs := Flatten(parsed.value.pages);
      if |vs| == 0 then (rows, Err(BadRequest))
      else if failAt.Some? && failAt.value < |vs| then
        (rows + ImportedRows(vs[..failAt.value], dictionaryId, ids, clock), Err(InternalServerError))
      else (rows + ImportedRows(vs, dictionaryId, ids, clock), Ok(ImportSummary(true, |vs|, dictionaryId)))
  }

  /** `importFromJson`: the session check of the protected procedure, then the body,
      whose every error the outer `catch` replaces by InternalServerError. */
  function ImportStep(rows: seq<EntryRow>, session: Option<string>, hasPermission: bool, parsed: Option<ImportJson>, dictionaryId: string,
                      ids: nat -> string, clock: nat -> int, failAt: Option<nat>)
    : (seq<EntryRow>, Result<ImportSummary, RouterError>)
  {
    if session.None? then (rows, Err(Unauthorized))
    else
      var attempt := ImportAttempt(rows, hasPermission, parsed, dictionaryId, ids, clock, failAt);
      (attempt.0, if attempt.1.Err? then Err(InternalServerError) else attempt.1)
  }

  /** Inside the body, a missing permission is Forbidden and an unparsable payload or
      one without vocabulary is BadRequest; the caller sees InternalServerError for all
      of them, and Unauthorized only without a session. */
  lemma ImportErrorsSurfaceAsInternal(rows: seq<EntryRow>, session: Option<string>, hasPermission: bool, parsed: Option<ImportJson>, dictionaryId: string,
                                      ids: nat -> string, clock: nat -> int, failAt: Option<nat>)
    ensures var attempt := ImportAttempt(rows, hasPermission, parsed, dictionaryId, ids, clock, failAt);
      && (attempt.1 == Err(Forbidden) <==> !hasPermission)
      && (attempt.1 == Err(BadRequest) <==> hasPermission && (parsed.None? || VocabularyCount(parsed.value.pages) == 0))
    ensures var r := ImportStep(rows, session, hasPermission, parsed, dictionaryId, ids, clock, failAt).1;
      && (r == Err(Unauthorized) <==> session.None?)
      && (r.Err? ==> r.error in {Unauthorized, InternalServerError})
      && (r.Ok? <==> session.Some? && hasPermission && parsed.Some? && VocabularyCount(parsed.value.pages) > 0
                     && !(failAt.Some? && failAt.value < VocabularyCount(parsed.value.pages)))
  {
    if parsed.Some? {
      FlattenLength(parsed.value.pages);
    }
  }

  /** A successful import inserts one row per vocabulary item, in order, after the
      existing rows: the item's word and pronunciation, the note naming its page,
      score 0, equal creation and update times, and no other text; the count is the
      number of items, which is positive. */
  lemma ImportSpec(rows: seq<EntryRow>, session: Option<string>, hasPermission: bool, parsed: Option<ImportJson>, dictionaryId: string,
                   ids: nat -> string, clock: nat -> int, failAt: Option<nat>)
    ensures var (rows', r) := ImportStep(rows, session, hasPermission, parsed, dictionaryId, ids, clock, failAt);
      r.Ok? ==>
        var vs := Flatten(parsed.value.pages);
        && r.value == ImportSummary(true, VocabularyCount(parsed.value.pages), dictionaryId)
        && r.value.count > 0
        && |rows'| == |rows| + r.value.count
        && rows'[..|rows|] == rows
        && forall k :: 0 <= k < |vs| ==>
             var row := rows'[|rows| + k];
             && row.record.id == ids(k)
             && row.record.word == Some(vs[k].word)
             && row.record.pronunciation == vs[k].pronunciation
             && row.record.notes == Some(ImportNote(vs[k].page))
             && row.record.translation.None? && row.record.partOfSpeech.None? && row.record.example.None?
             && row.dictionaryId == dictionaryId
             && row.score == 0
             && row.createdAt == row.updatedAt == clock(k)
  {
    if parsed.Some? {
      FlattenLength(parsed.value.pages);
      ImportedRowsAt(Flatten(parsed.value.pages), dictionaryId, ids, clock);
    }
  }

  /** A rejected insert ends the import with the rows inserted before it kept: the
      import is not atomic. Any other error leaves the table unchanged. */
  lemma ImportFailureKeepsPrefix(rows: seq<EntryRow>, session: Option<string>, hasPermission: bool, parsed: Option<ImportJson>, dictionaryId: string,
                                 ids: nat -> string, clock: nat -> int, failAt: Option<nat>)
    ensures var (rows', r) := ImportStep(rows, session, hasPermission, parsed, dictionaryId, ids, clock, failAt);
      && (r.Err? && (session.None? || !hasPermission || parsed.None? || VocabularyCount(parsed.value.pages) == 0) ==> rows' == rows)
      && (r.Err? && session.Some? && hasPermission && parsed.Some? && VocabularyCount(parsed.value.pages) > 0 ==>
            failAt.Some? && failAt.value < |Flatten(parsed.value.pages)|
            && rows' == rows + ImportedRows(Flatten(parsed.value.pages)[..failAt.value], dictionaryId, ids, clock))
  {
    if parsed.Some? {
      FlattenLength(parsed.value.pages);
    }
  }

  // ===== create and update =====

  /** The `create` input; `None` is an omitted optional field. */
  datatype CreateInput = CreateInput(dictionaryId: string, word: string, translation: Option<string>, partOfSpeech: Option<string>,
                                     pronunciation: Option<string>, example: Option<string>, notes: Option<string>)

  /** `create`: the session check, the input schema (a non-empty word), the permission
      check, then one insert. Omitted fields are stored as null and the score as 0;
      the result is the new id. */
  function CreateStep(rows: seq<EntryRow>, session: Option<string>, hasPermission: bool, input: CreateInput, id: string, now: int)
    : (seq<EntryRow>, Result<string, RouterError>)
  {
    if session.None? then (rows, Err(Unauthorized))
    else if |input.word| == 0 then (rows, Err(BadRequest))
    else if !hasPermission then (rows, Err(Forbidden))
    else
      var record := Record(id, Some(input.word), input.translation, input.partOfSpeech, input.pronunciation, input.example, input.notes);
      (rows + [EntryRow(record, input.dictionaryId, 0, now, now)], Ok(id))
  }

  /** A created entry is appended with every text field as given (omitted ones null),
      score 0 and equal creation and update times, and its id is returned; a refused
      request changes nothing. */
  lemma CreateSpec(rows: seq<EntryRow>, session: Option<string>, hasPermission: bool, input: CreateInput, id: string, now: int)
    ensures var (rows', r) := CreateStep(rows, session, hasPermission, input, id, now);
      && (r.Ok? <==> session.Some? && |input.word| > 0 && hasPermission)
      && (r.Err? ==> rows' == rows)
      && (r.Ok? ==>
            && r.value == id
            && |rows'| == |rows| + 1 && rows'[..|rows|] == rows
            && var row := rows'[|rows|];
               && row.record.id == id && row.dictionaryId == input.dictionaryId
               && row.record.word == Some(input.word)
               && row.record.translation == input.translation && row.record.partOfSpeech == input.partOfSpeech
               && row.record.pronunciation == input.pronunciation && row.record.example == input.example
               && row.record.notes == input.notes
               && row.score == 0 && row.createdAt == row.updatedAt == now)
  {
  }

  /** The `update` input; `None` is an omitted field. */
  datatype UpdateInput = UpdateInput(id: string, word: Option<string>, translation: Option<string>, partOfSpeech: Option<string>,
                                     pronunciation: Option<string>, example: Option<string>, notes: Option<string>)

  /** The value of `field` in an update input. */
  function Supplied(input: UpdateInput, f: Field): Option<string> {
    match f
    case Word => input.word
    case Translation => input.translation
    case PartOfSpeech => input.partOfSpeech
    case Pronunciation => input.pronunciation
    case Example => input.example
    case Notes => input.notes
  }

  /** A value in the `updates` dictionary. */
  datatype UpdateValue = Text(text: string) | Timestamp(time: int)

  /** The column name of the update time. */
  const UpdatedAt: string := "updatedAt"

  /** The dictionary `update` builds: the update time, and each supplied field under
      its column name. */
  function UpdatesOf(input: UpdateInput, now: int): map<string, UpdateValue> {
    var withWord := if input.word.Some? then map[UpdatedAt := Timestamp(now)][FieldName(Word) := Text(input.word.value)]
                    else map[UpdatedAt := Timestamp(now)];
    var withTranslation := if input.translation.Some? then withWord[FieldName(Translation) := Text(input.translation.value)] else withWord;
    var withPartOfSpeech := if input.partOfSpeech.Some? then withTranslation[FieldName(PartOfSpeech) := Text(input.partOfSpeech.value)] else withTranslation;
    var withPronunciation := if input.pronunciation.Some? then withPartOfSpeech[FieldName(Pronunciation) := Text(input.pronunciation.value)] else withPartOfSpeech;
    var withExample := if input.example.Some? then withPronunciation[FieldName(Example) := Text(input.example.value)] else withPronunciation;
    if input.notes.Some? then withExample[FieldName(Notes) := Text(input.notes.value)] else withExample
  }

  /** The `updates` dictionary holds the update time and exactly the supplied fields,
      each with its supplied value. */
  lemma UpdatesOfSpec(input: UpdateInput, now: int)
    ensures var updates := UpdatesOf(input, now);
      && UpdatedAt in updates && updates[UpdatedAt] == Timestamp(now)
      && (forall f :: FieldName(f) in updates <==> Supplied(input, f).Some?)
      && (forall f :: Supplied(input, f).Some? ==> updates[FieldName(f)] == Text(Supplied(input, f).value))
      && (forall key :: key in updates ==> key == UpdatedAt || exists f :: key == FieldName(f))
  {
    var updates := UpdatesOf(input, now);
    UpdatesOfTime(input, now);
    forall f ensures FieldName(f) in updates <==> Supplied(input, f).Some?
      ensures Supplied(input, f).Some? ==> updates[FieldName(f)] == Text(Supplied(input, f).value)
    {
      UpdatesOfField(input, now, f);
    }
    forall key | key in updates ensures key == UpdatedAt || exists f :: key == FieldName(f) {
      UpdatesOfKey(input, now, key);
    }
  }

  lemma UpdatesOfTime(input: UpdateInput, now: int)
    ensures UpdatedAt in UpdatesOf(input, now) && UpdatesOf(input, now)[UpdatedAt] == Timestamp(now)
  {
    forall f ensures FieldName(f) != UpdatedAt {
    }
  }

  lemma UpdatesOfField(input: UpdateInput, now: int, f: Field)
    ensures FieldName(f) in UpdatesOf(input, now) <==> Supplied(input, f).Some?
    ensures Supplied(input, f).Some? ==> UpdatesOf(input, now)[FieldName(f)] == Text(Supplied(input, f).value)
  {
    forall g ensures FieldName(g) == FieldName(f) <==> g == f {
      FieldNamesDistinct(f, g);
    }
    assert FieldName(f) != UpdatedAt;
  }

  lemma UpdatesOfKey(input: UpdateInput, now: int, key: string)
    requires key in UpdatesOf(input, now)
    ensures key == UpdatedAt || exists f :: key == FieldName(f)
  {
    if key != UpdatedAt && key != FieldName(Word) && key != FieldName(Translation) && key != FieldName(PartOfSpeech)
       && key != FieldName(Pronunciation) && key != FieldName(Example) {
      assert key == FieldName(Notes);
    }
  }

  /** The new value of a text column under `updates`. */
  function Column(updates: map<string, UpdateValue>, f: Field, current: Option<string>): Option<string> {
    var key := FieldName(f);
    if key in updates && updates[key].Text? then Some(updates[key].text) else current
  }

  /** One row after `set(updates)`. */
  function SetColumns(row: EntryRow, updates: map<string, UpdateValue>): EntryRow {
    var r := row.record;
    var record := Record(r.id, Column(updates, Word, r.word), Column(updates, Translation, r.translation),
                         Column(updates, PartOfSpeech, r.partOfSpeech), Column(updates, Pronunciation, r.pronunciation),
                         Column(updates, Example, r.example), Column(updates, Notes, r.notes));
    var updatedAt := if UpdatedAt in updates && updates[UpdatedAt].Timestamp? then updates[UpdatedAt].time else row.updatedAt;
    row.(record := record, updatedAt := updatedAt)
  }

  /** `set(updates).where(eq(entry.id, id))`. */
  function UpdateWhere(rows: seq<EntryRow>, id: string, updates: map<string, UpdateValue>): (rows': seq<EntryRow>)
    ensures |rows'| == |rows|
    ensures forall k :: 0 <= k < |rows| ==> rows'[k] == if rows[k].record.id == id then SetColumns(rows[k], updates) else rows[k]
  {
    seq(|rows|, k requires 0 <= k < |rows| => if rows[k].record.id == id then SetColumns(rows[k], updates) else rows[k])
  }

  /** `update`: the session check, the input schema (a supplied word is non-empty),
      the permission check, then the update. A missing id updates nothing and still
      succeeds. */
  function UpdateStep(rows: seq<EntryRow>, session: Option<string>, hasPermission: bool, input: UpdateInput, now: int)
    : (seq<EntryRow>, Result<bool, RouterError>)
  {
    if session.None? then (rows, Err(Unauthorized))
    else if input.word == Some("") then (rows, Err(BadRequest))
    else if !hasPermission then (rows, Err(Forbidden))
    else (UpdateWhere(rows, input.id, UpdatesOf(input, now)), Ok(true))
  }

  /** On a row, the update sets exactly the supplied fields to the supplied values and
      the update time to `now`, and keeps the id, dictionary, score and creation time. */
  lemma SetColumnsSpec(row: EntryRow, input: UpdateInput, now: int)
    ensures var row' := SetColumns(row, UpdatesOf(input, now));
      && row'.record.id == row.record.id
      && row'.dictionaryId == row.dictionaryId && row'.score == row.score
      && row'.createdAt == row.createdAt && row'.updatedAt == now
      && forall f :: FieldValue(row'.record, f) == if Supplied(input, f).Some? then Supplied(input, f) else FieldValue(row.record, f)
  {
    UpdatesOfTime(input, now);
    forall f ensures FieldValue(SetColumns(row, UpdatesOf(input, now)).record, f) ==
      if Supplied(input, f).Some? then Supplied(input, f) else FieldValue(row.record, f)
    {
      SetColumnsField(row, UpdatesOf(input, now), f);
      UpdatesOfField(input, now, f);
    }
  }

  /** Each text column takes the dictionary's text under its name, if any. */
  lemma SetColumnsField(row: EntryRow, updates: map<string, UpdateValue>, f: Field)
    ensures FieldValue(SetColumns(row, updates).record, f) == Column(updates, f, FieldValue(row.record, f))
  {
  }

  /** An update changes only the rows with the given id, each as `SetColumnsSpec`
      says; a refused request changes nothing. */
  lemma UpdateSpec(rows: seq<EntryRow>, session: Option<string>, hasPermission: bool, input: UpdateInput, now: int)
    ensures var (rows', r) := UpdateStep(rows, session, hasPermission, input, now);
      && (r.Ok? <==> session.Some? && input.word != Some("") && hasPermission)
      && (r.Err? ==> rows' == rows)
      && |rows'| == |rows|
      && (r.Ok? ==> forall k :: 0 <= k < |rows| ==>
            rows'[k] == if rows[k].record.id == input.id then SetColumns(rows[k], UpdatesOf(input, now)) else rows[k])
  {
  }

  // ===== Remote-data enrichment =====

  /** The most entries `enrichEntriesWithRemoteData` keeps. */
  const EnrichLimit: nat := 10

  /** `enrichEntriesWithRemoteData`: the first ten entries, in order, each paired with
      the remote dictionary's answer for it (`lookup` stands for the cached fetch). */
  function Enrich<T, R>(entries: seq<T>, lookup: T -> R): (r: seq<(T, R)>)
    ensures |r| == if |entries| < EnrichLimit then |entries| else EnrichLimit
    ensures forall k :: 0 <= k < |r| ==> r[k] == (entries[k], lookup(entries[k]))
  {
    var kept := if |entries| < EnrichLimit then entries else entries[..EnrichLimit];
    seq(|kept|, k requires 0 <= k < |kept| => (kept[k], lookup(kept[k])))
  }

  /** Entries past the tenth have no effect on the enrichment. */
  lemma EnrichIgnoresTail<T, R>(entries: seq<T>, more: seq<T>, lookup: T -> R)
    requires |entries| >= EnrichLimit
    ensures Enrich(entries + more, lookup) == Enrich(entries, lookup)
  {
    var a, b := Enrich(entries + more, lookup), Enrich(entries, lookup);
    assert |a| == |b|;
    forall k | 0 <= k < |a| ensures a[k] == b[k] {
      assert (entries + more)[k] == entries[k];
    }
  }

  // ===== search =====

  const DefaultSearchLimit: nat := 20
  const MaxSearchLimit: nat := 100

  /** The `search` input; `None` is an omitted property. */
  datatype SearchInput = SearchInput(query: string, limit: Option<int>, offset: Option<int>, includeFuzzy: Option<bool>, includeSemantic: Option<bool>)

  /** The input after the schema filled in the defaults. */
  datatype SearchParams = SearchParams(query: string, limit: nat, offset: nat, includeFuzzy: bool, includeSemantic: bool)

  /** The `search` input schema: a non-empty query, a limit in 1..100 (default 20),
      a non-negative offset (default 0), both flags defaulting to true. */
  function ValidateSearchInput(input: SearchInput): (r: Result<SearchParams, RouterError>)
    ensures r.Ok? <==> |input.query| >= 1
                       && (input.limit.None? || 1 <= input.limit.value <= MaxSearchLimit)
                       && (input.offset.None? || input.offset.value >= 0)
    ensures r.Err? ==> r.error == BadRequest
    ensures r.Ok? ==> && r.value.query == input.query
                      && 1 <= r.value.limit <= MaxSearchLimit
                      && (input.limit.None? ==> r.value.limit == DefaultSearchLimit)
                      && (input.limit.Some? ==> r.value.limit == input.limit.value)
                      && (input.offset.Some? ==> r.value.offset == input.offset.value)
                      && (input.offset.None? ==> r.value.offset == 0)
                      && r.value.includeFuzzy == GetOr(input.includeFuzzy, true)
                      && r.value.includeSemantic == GetOr(input.includeSemantic, true)
  {
    if |input.query| < 1 then Err(BadRequest)
    else if input.limit.Some? && !(1 <= input.limit.value <= MaxSearchLimit) then Err(BadRequest)
    else if input.offset.Some? && input.offset.value < 0 then Err(BadRequest)
    else
      var limit := if input.limit.Some? then input.limit.value else DefaultSearchLimit;
      var offset := if input.offset.Some? then input.offset.value else 0;
      Ok(SearchParams(input.query, limit, offset, GetOr(input.includeFuzzy, true), GetOr(input.includeSemantic, true)))
  }

  datatype Pagination = Pagination(total: nat, limit: nat, offset: nat, hasMore: bool)

  datatype SearchResponse<R> = SearchResponse(entries: seq<(Record, R)>, searchStats: SearchStats, pagination: Pagination)

  /** `.limit(n)` on a query result. */
  function Take<T>(s: seq<T>, n: nat): (r: seq<T>)
    ensures |r| == if |s| < n then |s| else n
    ensures r == s[..|r|]
  {
    if |s| < n then s else s[..n]
  }

  function EntryOf(m: MatchResult): Record { m.entry }

  /** The entries of the results, in order. */
  function EntriesOf(rs: seq<MatchResult>): (es: seq<Record>)
    ensures |es| == |rs|
    ensures forall k :: 0 <= k < |es| ==> es[k] == rs[k].entry
  {
    seq(|rs|, k requires 0 <= k < |rs| => rs[k].entry)
  }

  /** The options the handler passes to the search: twice the limit, offset 0. */
  function RankOptions(p: SearchParams): SearchOptions {
    SearchOptions(Some(2 * p.limit), Some(0), Some(p.includeFuzzy), Some(p.includeSemantic))
  }

  /** The handler's answer built from the ranked results: the first `limit` of them,
      enriched; the statistics with the query length and elapsed time filled in; and
      the pagination, whose total counts the ranked results. */
  function Respond<R>(p: SearchParams, searchResults: seq<MatchResult>, elapsed: nat, lookup: Record -> R): SearchResponse<R> {
    var topResults := Ranking.Page(searchResults, 0, p.limit);
    var enriched := Enrich(EntriesOf(topResults), lookup);
    var stats := GetSearchStats(searchResults).(queryLength := |p.query|, executionTime := elapsed);
    var total := |searchResults|;
    SearchResponse(enriched, stats, Pagination(total, p.limit, p.offset, p.offset + p.limit < total))
  }

  /** The `search` handler as a transition of the search cache. `likeMatches` are the
      rows the SQL `LIKE` filter selects, in the database's order; the handler keeps
      the first `3 * limit` of them. `elapsed` is the measured execution time and
      `lookup` the remote dictionary. */
  function SearchHandlerStep<R>(es: seq<CacheEntry<MatchResult>>, likeMatches: seq<Record>, input: SearchInput, now: int, elapsed: nat,
                                decay: nat -> real, lookup: Record -> R)
    : (seq<CacheEntry<MatchResult>>, Result<SearchResponse<R>, RouterError>)
  {
    var v := ValidateSearchInput(input);
    if v.Err? then (es, Err(v.error))
    else
      var p := v.value;
      var searched := SearchStep(es, Take(likeMatches, 3 * p.limit), p.query, RankOptions(p), now, decay);
      (searched.0, Ok(Respond(p, searched.1, elapsed, lookup)))
  }

  function Min(a: nat, b: nat): nat {
    if a < b then a else b
  }

  /** The answer holds the first `min(limit, 10)` results, in order, each with its
      remote data; the total and the statistics count all of them; `hasMore` says
      that `offset + limit` is below the total. */
  lemma RespondSpec<R>(p: SearchParams, results: seq<MatchResult>, elapsed: nat, lookup: Record -> R)
    ensures var resp := Respond(p, results, elapsed, lookup);
      && resp.pagination == Pagination(|results|, p.limit, p.offset, p.offset + p.limit < |results|)
      && |resp.entries| == Min(Min(p.limit, EnrichLimit), |results|)
      && (forall k :: 0 <= k < |resp.entries| ==> resp.entries[k] == (results[k].entry, lookup(results[k].entry)))
      && resp.searchStats.totalResults == |results|
      && resp.searchStats.queryLength == |p.query|
      && resp.searchStats.executionTime == elapsed
  {
    var topResults := Ranking.Page(results, 0, p.limit);
    assert |topResults| == Min(p.limit, |results|);
  }

  /** A search answers as `Respond` says from the ranked results, whose number never
      exceeds twice the limit for a query that is not blank (three times the limit,
      the pre-filter's size, for a blank one) when every cached page fits its key;
      and the cache keeps every page fitting its key. */
  lemma SearchHandlerSpec<R>(es: seq<CacheEntry<MatchResult>>, likeMatches: seq<Record>, input: SearchInput, now: int, elapsed: nat,
                             decay: nat -> real, lookup: Record -> R)
    requires ResultsFitKeys(es)
    ensures var (es', r) := SearchHandlerStep(es, likeMatches, input, now, elapsed, decay, lookup);
      && ResultsFitKeys(es')
      && (r.Err? <==> ValidateSearchInput(input).Err?)
      && (r.Ok? ==>
            var p := ValidateSearchInput(input).value;
            var searched := SearchStep(es, Take(likeMatches, 3 * p.limit), input.query, RankOptions(p), now, decay);
            && es' == searched.0
            && r.value == Respond(p, searched.1, elapsed, lookup)
            && |searched.1| <= 3 * p.limit
            && (Strings.Trim(input.query) != [] ==> |searched.1| <= 2 * p.limit))
  {
    var v := ValidateSearchInput(input);
    if v.Ok? {
      var p := v.value;
      var potentialMatches := Take(likeMatches, 3 * p.limit);
      SearchResultsWithinLimit(es, potentialMatches, input.query, RankOptions(p), now, decay);
      if Strings.Trim(input.query) == [] {
        Strings.TrimSpec(input.query);
        BlankQuerySpec(es, potentialMatches, input.query, RankOptions(p), now, decay);
      }
    }
  }

  /** The answer does not depend on the requested offset except in the echoed offset
      and `hasMore`. */
  lemma RespondIgnoresOffset<R>(p: SearchParams, offset: nat, results: seq<MatchResult>, elapsed: nat, lookup: Record -> R)
    ensures var r1, r2 := Respond(p, results, elapsed, lookup), Respond(p.(offset := offset), results, elapsed, lookup);
      && r1.entries == r2.entries && r1.searchStats == r2.searchStats
      && r1.pagination.total == r2.pagination.total && r2.pagination.offset == offset
  {
  }

  /** The handler never pages by the requested offset: requests that differ only in
      a valid offset get the same entries and total, and leave the cache alike; only the
      echoed offset and `hasMore` differ. */
  lemma SearchHandlerIgnoresOffset<R>(es: seq<CacheEntry<MatchResult>>, likeMatches: seq<Record>, input: SearchInput, offset: nat, now: int, elapsed: nat,
                                      decay: nat -> real, lookup: Record -> R)
    requires input.offset.None? || input.offset.value >= 0
    ensures SearchHandlerStep(es, likeMatches, input, now, elapsed, decay, lookup).0
         == SearchHandlerStep(es, likeMatches, input.(offset := Some(offset)), now, elapsed, decay, lookup).0
    ensures SearchHandlerStep(es, likeMatches, input, now, elapsed, decay, lookup).1.Ok?
        <==> SearchHandlerStep(es, likeMatches, input.(offset := Some(offset)), now, elapsed, decay, lookup).1.Ok?
    ensures var r1 := SearchHandlerStep(es, likeMatches, input, now, elapsed, decay, lookup).1;
      var r2 := SearchHandlerStep(es, likeMatches, input.(offset := Some(offset)), now, elapsed, decay, lookup).1;
      r1.Ok? && r2.Ok? ==>
        r1.value.entries == r2.value.entries && r1.value.pagination.total == r2.value.pagination.total
        && r2.value.pagination.offset == offset
  {
    var input2 := input.(offset := Some(offset));
    var v1, v2 := ValidateSearchInput(input), ValidateSearchInput(input2);
    if v1.Ok? {
      var p := v1.value;
      assert v2.value == p.(offset := offset);
      var searched := SearchStep(es, Take(likeMatches, 3 * p.limit), p.query, RankOptions(p), now, decay);
      assert SearchHandlerStep(es, likeMatches, input, now, elapsed, decay, lookup) == (searched.0, Ok(Respond(p, searched.1, elapsed, lookup)));
      assert SearchHandlerStep(es, likeMatches, input2, now, elapsed, decay, lookup) == (searched.0, Ok(Respond(p.(offset := offset), searched.1, elapsed, lookup)));
      RespondIgnoresOffset(p, offset, searched.1, elapsed, lookup);
    }
  }

  lemma ImportedRowsSnoc(before: seq<EntryRow>, vs: seq<VocabularyEntry>, k: nat, dictionaryId: string, ids: nat -> string, clock: nat -> int)
    requires k < |vs|
    ensures before + ImportedRows(vs[..k + 1], dictionaryId, ids, clock)
         == (before + ImportedRows(vs[..k], dictionaryId, ids, clock)) + [ImportedRow(vs[k], dictionaryId, ids(k), clock(k))]
  {
    assert vs[..k + 1][..k] == vs[..k];
  }

  /** The `updates` dictionary, built field by field as the handler does. */
  method BuildUpdates(input: UpdateInput, now: int) returns (updates: map<string, UpdateValue>)
    ensures updates == UpdatesOf(input, now)
  {
    updates := map[UpdatedAt := Timestamp(now)];
    if input.word.Some? { updates := updates[FieldName(Word) := Text(input.word.value)]; }
    if input.translation.Some? { updates := updates[FieldName(Translation) := Text(input.translation.value)]; }
    if input.partOfSpeech.Some? { updates := updates[FieldName(PartOfSpeech) := Text(input.partOfSpeech.value)]; }
    if input.pronunciation.Some? { updates := updates[FieldName(Pronunciation) := Text(input.pronunciation.value)]; }
    if input.example.Some? { updates := updates[FieldName(Example) := Text(input.example.value)]; }
    if input.notes.Some? { updates := updates[FieldName(Notes) := Text(input.notes.value)]; }
  }

  /** The entry table. */
  class EntryStore {
    var rows: seq<EntryRow>

    constructor()
      ensures rows == []
    {
      rows := [];
    }

    /** The body of `importFromJson`'s outer `try`, with the error it throws. */
    method TryImport(hasPermission: bool, parsed: Option<ImportJson>, dictionaryId: string,
                     ids: nat -> string, clock: nat -> int, failAt: Option<nat>)
      returns (r: Result<ImportSummary, RouterError>)
      modifies this
      ensures (rows, r) == ImportAttempt(old(rows), hasPermission, parsed, dictionaryId, ids, clock, failAt)
    {
      if !hasPermission {
        return Err(Forbidden);
      }
      if parsed.None? {
        return Err(BadRequest);
      }
      var vocabularyEntries := ExtractVocabularyEntries(parsed.value);
      if |vocabularyEntries| == 0 {
        return Err(BadRequest);
      }
      var insertedCount := InsertAll(vocabularyEntries, dictionaryId, ids, clock, failAt);
      if insertedCount < |vocabularyEntries| {
        return Err(InternalServerError);
      }
      assert vocabularyEntries[..insertedCount] == vocabularyEntries;
      return Ok(ImportSummary(true, insertedCount, dictionaryId));
    }

    /** The handler's insert loop: one insert per entry, stopping at the first insert
        the database rejects. Returns the number inserted. */
    method InsertAll(vocabularyEntries: seq<VocabularyEntry>, dictionaryId: string, ids: nat -> string, clock: nat -> int, failAt: Option<nat>)
      returns (insertedCount: nat)
      modifies this
      ensures insertedCount == if failAt.Some? && failAt.value < |vocabularyEntries| then failAt.value else |vocabularyEntries|
      ensures rows == old(rows) + ImportedRows(vocabularyEntries[..insertedCount], dictionaryId, ids, clock)
    {
      insertedCount := 0;
      while insertedCount < |vocabularyEntries|
        invariant 0 <= insertedCount <= |vocabularyEntries|
        invariant failAt.Some? ==> insertedCount <= failAt.value
        invariant rows == old(rows) + ImportedRows(vocabularyEntries[..insertedCount], dictionaryId, ids, clock)
      {
        if failAt == Some(insertedCount) {
          return;
        }
        var row := ImportedRow(vocabularyEntries[insertedCount], dictionaryId, ids(insertedCount), clock(insertedCount));
        ImportedRowsSnoc(old(rows), vocabularyEntries, insertedCount, dictionaryId, ids, clock);
        rows := rows + [row];
        insertedCount := insertedCount + 1;
      }
    }

    /** `importFromJson`. */
    method ImportFromJson(session: Option<string>, hasPermission: bool, parsed: Option<ImportJson>, dictionaryId: string,
                          ids: nat -> string, clock: nat -> int, failAt: Option<nat>)
      returns (r: Result<ImportSummary, RouterError>)
      modifies this
      ensures (rows, r) == ImportStep(old(rows), session, hasPermission, parsed, dictionaryId, ids, clock, failAt)
    {
      if session.None? {
        return Err(Unauthorized);
      }
      r := TryImport(hasPermission, parsed, dictionaryId, ids, clock, failAt);
      if r.Err? {
        r := Err(InternalServerError);
      }
    }

    /** `create`. */
    method Create(session: Option<string>, hasPermission: bool, input: CreateInput, id: string, now: int)
      returns (r: Result<string, RouterError>)
      modifies this
      ensures (rows, r) == CreateStep(old(rows), session, hasPermission, input, id, now)
    {
      if session.None? {
        return Err(Unauthorized);
      }
      if |input.word| == 0 {
        return Err(BadRequest);
      }
      if !hasPermission {
        return Err(Forbidden);
      }
      var record := Record(id, Some(input.word), input.translation, input.partOfSpeech, input.pronunciation, input.example, input.notes);
      rows := rows + [EntryRow(record, input.dictionaryId, 0, now, now)];
      return Ok(id);
    }

    /** `update`. */
    method Update(session: Option<string>, hasPermission: bool, input: UpdateInput, now: int)
      returns (r: Result<bool, RouterError>)
      modifies this
      ensures (rows, r) == UpdateStep(old(rows), session, hasPermission, input, now)
    {
      if session.None? {
        return Err(Unauthorized);
      }
      if input.word == Some("") {
        return Err(BadRequest);
      }
      if !hasPermission {
        return Err(Forbidden);
      }
      var updates := BuildUpdates(input, now);
      rows := UpdateWhere(rows, input.id, updates);
      return Ok(true);
    }
  }

  /** The `search` handler against the module-wide search cache. */
  method SearchHandler<R>(cache: SearchCache<MatchResult>, likeMatches: seq<Record>, input: SearchInput, now: int, elapsed: nat,
                          decay: nat -> real, lookup: Record -> R)
    returns (r: Result<SearchResponse<R>, RouterError>)
    requires cache.Valid()
    modifies cache
    ensures cache.Valid()
    ensures (cache.entries, r) == SearchHandlerStep(old(cache.entries), likeMatches, input, now, elapsed, decay, lookup)
  {
    var v := ValidateSearchInput(input);
    if v.Err? {
      return Err(v.error);
    }
    var p := v.value;
    var potentialMatches := Take(likeMatches, 3 * p.limit);
    var searchResults := PerformEnhancedSearch(cache, potentialMatches, p.query, RankOptions(p), now, decay);
    var topResults := Ranking.Page(searchResults, 0, p.limit);
    var enrichedEntries := Enrich(EntriesOf(topResults), lookup);
    var totalCount := |searchResults|;
    var searchStats := GetSearchStats(searchResults);
    searchStats := searchStats.(queryLength := |p.query|, executionTime := elapsed);
    return Ok(SearchResponse(enrichedEntries, searchStats, Pagination(totalCount, p.limit, p.offset, p.offset + p.limit < totalCount)));
  }
}
