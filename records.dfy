/** The glossary entry as the ranking engine sees it: a record of optional text
    fields, each with a fixed relevance weight. */
module Records {
  import opened Wrappers

  /** A candidate entry. `id` identifies the stored row; the six text fields are the
      ones the engine searches, `None` standing for a missing or null value. */
  datatype Record = Record(
    id: string,
    word: Option<string>,
    translation: Option<string>,
    partOfSpeech: Option<string>,
    pronunciation: Option<string>,
    example: Option<string>,
    notes: Option<string>)

  /** The searchable fields, listed in the order the analyzer visits them. */
  datatype Field = Word | Translation | PartOfSpeech | Pronunciation | Example | Notes

  const SearchableFields: seq<Field> := [Word, Translation, PartOfSpeech, Pronunciation, Example, Notes]

  function FieldName(f: Field): string {
    match f
    case Word => "word"
    case Translation => "translation"
    case PartOfSpeech => "partOfSpeech"
    case Pronunciation => "pronunciation"
    case Example => "example"
    case Notes => "notes"
  }

  /** The relevance weight of each field. */
  function Weight(f: Field): (w: real)
    ensures 0.0 < w <= 1.0
  {
    match f
    case Word => 1.0
    case Translation => 0.8
    case PartOfSpeech => 0.6
    case Pronunciation => 0.5
    case Example => 0.4
    case Notes => 0.3
  }

  function FieldValue(r: Record, f: Field): Option<string> {
    match f
    case Word => r.word
    case Translation => r.translation
    case PartOfSpeech => r.partOfSpeech
    case Pronunciation => r.pronunciation
    case Example => r.example
    case Notes => r.notes
  }

  /** The six field names are distinct and none of them is "semantic". */
  lemma FieldNamesDistinct(f: Field, g: Field)
    ensures FieldName(f) == FieldName(g) <==> f == g
    ensures FieldName(f) != "semantic"
  {
  }
}
