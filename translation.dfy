/** Translation rows (the ProductTranslations and CategoryTranslations
    tables) and the resolver that picks a language variant of an entity's
    title and description, falling back to the entity's own columns. */
module Translation {
  import opened Common

  /** The language used when a caller names none. */
  const DefaultLanguage: string := "tr"

  /** The `language` column is a STRING(5). */
  const MaxLanguageLength: nat := 5

  /** The `title` column is a STRING, a VARCHAR(255). */
  const MaxTitleLength: nat := 255

  /** One translation row. `parentId` is the `productId` or the `categoryId`
      column; `title` is NOT NULL, `description` is nullable. */
  datatype TranslationRow = TranslationRow(
    parentId: nat,
    language: string,
    title: string,
    description: Option<string>)

  /** A title and description taken together from one source. */
  datatype Content = Content(title: string, description: Option<string>)

  function RowContent(row: TranslationRow): Content {
    Content(row.title, row.description)
  }

  /** Some row of `rows` is in language `lang`. */
  predicate HasLanguage(rows: seq<TranslationRow>, lang: string) {
    exists k :: 0 <= k < |rows| && rows[k].language == lang
  }

  /** `rows[k]` is the row that `rows.find(t => t.language === lang)` returns. */
  predicate IsFirstMatch(rows: seq<TranslationRow>, lang: string, k: int) {
    && 0 <= k < |rows|
    && rows[k].language == lang
    && forall j :: 0 <= j < k ==> rows[j].language != lang
  }

  /** The position `Array.prototype.find` stops at: the first row in
      language `lang`, or `|rows|` when there is none. */
  function FirstMatch(rows: seq<TranslationRow>, lang: string): (k: nat)
    ensures k <= |rows|
    ensures k < |rows| ==> IsFirstMatch(rows, lang, k)
    ensures k == |rows| ==> !HasLanguage(rows, lang)
  {
    if rows == [] then 0
    else if rows[0].language == lang then 0
    else 1 + FirstMatch(rows[1..], lang)
  }

  /** `getTranslatedContent`: the attached translations may not have been
      loaded (`None`); a loaded, non-empty list with a row in `lang` gives
      the first such row's pair, anything else gives the base pair. */
  function Resolve(base: Content, translations: Option<seq<TranslationRow>>,
                   lang: string := DefaultLanguage): (c: Content)
    ensures translations.Some? && HasLanguage(translations.value, lang) ==>
      exists k :: IsFirstMatch(translations.value, lang, k)
               && c == RowContent(translations.value[k])
    ensures translations.None? || !HasLanguage(translations.value, lang) ==>
      c == base
    ensures c == base || exists row :: row in translations.GetOr([])
                                && row.language == lang && c == RowContent(row)
  {
    match translations
    case None => base
    case Some(rows) =>
      if |rows| > 0 && FirstMatch(rows, lang) < |rows|
      then RowContent(rows[FirstMatch(rows, lang)])
      else base
  }

  /** No two rows of `rows` are in the same language. */
  predicate DistinctLanguages(rows: seq<TranslationRow>) {
    forall i, j :: 0 <= i < j < |rows| ==> rows[i].language != rows[j].language
  }

  /** When the languages of the attached rows are distinct, which row the
      resolver picks does not depend on their order: it is the one row in
      the requested language. */
  lemma ResolveDistinct(base: Content, rows: seq<TranslationRow>, row: TranslationRow)
    requires DistinctLanguages(rows)
    requires row in rows
    ensures Resolve(base, Some(rows), row.language) == RowContent(row)
  {
    var i :| 0 <= i < |rows| && rows[i] == row;
    var k := FirstMatch(rows, row.language);
    assert HasLanguage(rows, row.language);
    assert k < |rows| && rows[k].language == row.language;
  }

  /** Two lists that agree on their first row in `lang` resolve alike; in
      particular rows placed after a matching row never matter. */
  lemma {:induction false} ResolveIgnoresLaterRows(base: Content, rows: seq<TranslationRow>,
                                                  more: seq<TranslationRow>, lang: string)
    requires HasLanguage(rows, lang)
    ensures Resolve(base, Some(rows + more), lang) == Resolve(base, Some(rows), lang)
  {
    FirstMatchPrefix(rows, more, lang);
  }

  lemma {:induction false} FirstMatchPrefix(rows: seq<TranslationRow>, more: seq<TranslationRow>, lang: string)
    requires HasLanguage(rows, lang)
    ensures FirstMatch(rows + more, lang) == FirstMatch(rows, lang)
  {
    assert rows != [];
    if rows[0].language != lang {
      assert (rows + more)[1..] == rows[1..] + more;
      assert HasLanguage(rows[1..], lang) by {
        var k :| 0 <= k < |rows| && rows[k].language == lang;
        assert rows[1..][k - 1].language == lang;
      }
      FirstMatchPrefix(rows[1..], more, lang);
    }
  }
}
