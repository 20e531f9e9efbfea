/** The translation tables and their write path: `findOne` by the composite
    key (parent id, language), the upsert that `saveProductTranslation` and
    `saveCategoryTranslation` perform with `findOrCreate` and `update`, the
    per-parent `findAll`, and the cascade that removes a parent's rows. */
module TranslationStore {
  import opened Common
  import opened Translation

  /** The unique index on (parent id, language): no two rows share a key. */
  predicate UniqueKeys(rows: seq<TranslationRow>) {
    forall i, j :: 0 <= i < j < |rows| ==>
      rows[i].parentId != rows[j].parentId || rows[i].language != rows[j].language
  }

  /** A language and a title that fit the STRING(5) `language` and the
      VARCHAR(255) `title` columns. */
  predicate Fits(language: string, title: string) {
    |language| <= MaxLanguageLength && |title| <= MaxTitleLength
  }

  /** Every row fits the columns. */
  predicate FitColumns(rows: seq<TranslationRow>) {
    forall i :: 0 <= i < |rows| ==> Fits(rows[i].language, rows[i].title)
  }

  /** The schema invariants of a translation table. */
  predicate ValidRows(rows: seq<TranslationRow>) {
    UniqueKeys(rows) && FitColumns(rows)
  }

  predicate HasKey(row: TranslationRow, parentId: nat, lang: string) {
    row.parentId == parentId && row.language == lang
  }

  /** `findOne({ where: { parentId, language } })`: the position of the
      first row with that key, if any. */
  function Find(rows: seq<TranslationRow>, parentId: nat, lang: string): (k: Option<nat>)
    ensures k.Some? ==> k.value < |rows| && HasKey(rows[k.value], parentId, lang)
    ensures k.Some? ==> forall j :: 0 <= j < k.value ==> !HasKey(rows[j], parentId, lang)
    ensures k.None? ==> forall j :: 0 <= j < |rows| ==> !HasKey(rows[j], parentId, lang)
  {
    if rows == [] then None
    else if HasKey(rows[0], parentId, lang) then Some(0)
    else match Find(rows[1..], parentId, lang)
         case None => None
         case Some(k) => Some(k + 1)
  }

  /** The row that holds (parentId, lang) after `findOrCreate` with the
      defaults `{ title, description }` and, when the row already existed,
      `update({ title, description })`. An absent description is
      `undefined`: a new row stores null for it, and `update` leaves it out,
      so an existing row keeps its description. */
  function WrittenRow(rows: seq<TranslationRow>, parentId: nat, lang: string,
                      title: string, description: Patch<Option<string>>): (row: TranslationRow)
    ensures HasKey(row, parentId, lang) && row.title == title
    ensures description.Set? ==> row.description == description.value
    ensures description.Keep? && Find(rows, parentId, lang).None? ==> row.description == None
    ensures description.Keep? && Find(rows, parentId, lang).Some? ==>
      row.description == rows[Find(rows, parentId, lang).value].description
  {
    match Find(rows, parentId, lang)
    case None => TranslationRow(parentId, lang, title, description.ApplyTo(None))
    case Some(k) => rows[k].(title := title, description := description.ApplyTo(rows[k].description))
  }

  /** The table after that upsert: a new row is appended, an existing one is
      overwritten in place. */
  function Upserted(rows: seq<TranslationRow>, parentId: nat, lang: string,
                    title: string, description: Patch<Option<string>>): (r: seq<TranslationRow>)
    ensures |r| == |rows| + (if Find(rows, parentId, lang).None? then 1 else 0)
    ensures exists k :: 0 <= k < |r| && r[k] == WrittenRow(rows, parentId, lang, title, description)
    ensures forall i :: 0 <= i < |rows| && !HasKey(rows[i], parentId, lang) ==> r[i] == rows[i]
    ensures forall i :: 0 <= i < |r| ==> r[i] in rows || r[i] == WrittenRow(rows, parentId, lang, title, description)
  {
    var row := WrittenRow(rows, parentId, lang, title, description);
    match Find(rows, parentId, lang)
    case None =>
      assert (rows + [row])[|rows|] == row;
      rows + [row]
    case Some(k) =>
      assert rows[k := row][k] == row;
      rows[k := row]
  }

  /** Upserting keeps the unique index intact. */
  lemma UpsertedUnique(rows: seq<TranslationRow>, parentId: nat, lang: string,
                       title: string, description: Patch<Option<string>>)
    requires UniqueKeys(rows)
    ensures UniqueKeys(Upserted(rows, parentId, lang, title, description))
  {
    var r := Upserted(rows, parentId, lang, title, description);
    var row := WrittenRow(rows, parentId, lang, title, description);
    match Find(rows, parentId, lang)
    case None =>
      assert r == rows + [row];
    case Some(k) =>
      assert r == rows[k := row];
      forall i, j | 0 <= i < j < |r|
        ensures r[i].parentId != r[j].parentId || r[i].language != r[j].language
      {
        if i == k {
          assert !HasKey(rows[j], parentId, lang);
        } else if j == k {
          assert !HasKey(rows[i], parentId, lang);
        }
      }
  }

  /** Upserting keeps the schema invariants as long as language and title
      fit. */
  lemma UpsertedValid(rows: seq<TranslationRow>, parentId: nat, lang: string,
                      title: string, description: Patch<Option<string>>)
    requires ValidRows(rows)
    requires Fits(lang, title)
    ensures ValidRows(Upserted(rows, parentId, lang, title, description))
  {
    UpsertedUnique(rows, parentId, lang, title, description);
  }

  /** After an upsert the key has exactly one row, the written one. */
  lemma UpsertedExactlyOne(rows: seq<TranslationRow>, parentId: nat, lang: string,
                           title: string, description: Patch<Option<string>>)
    requires UniqueKeys(rows)
    ensures var r := Upserted(rows, parentId, lang, title, description);
      && (exists k :: 0 <= k < |r| && r[k] == WrittenRow(rows, parentId, lang, title, description))
      && forall i :: 0 <= i < |r| && HasKey(r[i], parentId, lang) ==>
           r[i] == WrittenRow(rows, parentId, lang, title, description)
  {
    var row := WrittenRow(rows, parentId, lang, title, description);
    var r := Upserted(rows, parentId, lang, title, description);
    match Find(rows, parentId, lang)
    case None =>
      assert r == rows + [row];
    case Some(k) =>
      assert r == rows[k := row];
      forall i | 0 <= i < |r| && HasKey(r[i], parentId, lang) ensures r[i] == row {
        if i != k {
          assert false;
        }
      }
  }

  /** Upserting the same arguments twice gives the table of one upsert. */
  lemma UpsertedIdempotent(rows: seq<TranslationRow>, parentId: nat, lang: string,
                           title: string, description: Patch<Option<string>>)
    ensures var once := Upserted(rows, parentId, lang, title, description);
      Upserted(once, parentId, lang, title, description) == once
  {
    var row := WrittenRow(rows, parentId, lang, title, description);
    var once := Upserted(rows, parentId, lang, title, description);
    match Find(rows, parentId, lang)
    case None =>
      assert once == rows + [row];
      FindAppended(rows, row);
      assert WrittenRow(once, parentId, lang, title, description) == row;
      assert once[|rows| := row] == once;
    case Some(k) =>
      assert once == rows[k := row];
      FindUpdated(rows, k, row);
      assert WrittenRow(once, parentId, lang, title, description) == row;
      assert once[k := row] == once;
  }

  lemma {:induction false} FindAppended(rows: seq<TranslationRow>, row: TranslationRow)
    requires Find(rows, row.parentId, row.language).None?
    ensures Find(rows + [row], row.parentId, row.language) == Some(|rows|)
  {
    if rows != [] {
      assert (rows + [row])[1..] == rows[1..] + [row];
      FindAppended(rows[1..], row);
    }
  }

  lemma {:induction false} FindUpdated(rows: seq<TranslationRow>, k: nat, row: TranslationRow)
    requires Find(rows, row.parentId, row.language) == Some(k)
    ensures Find(rows[k := row], row.parentId, row.language) == Some(k)
  {
    if k > 0 {
      assert rows[k := row][1..] == rows[1..][k - 1 := row];
      FindUpdated(rows[1..], k - 1, row);
    }
  }

  /** `findAll({ where: { parentId } })`: the parent's rows in table order,
      which is what eager loading attaches as `translations`. */
  function Attached(rows: seq<TranslationRow>, parentId: nat): (r: seq<TranslationRow>)
    ensures forall row :: row in r <==> row in rows && row.parentId == parentId
  {
    if rows == [] then []
    else if rows[0].parentId == parentId then [rows[0]] + Attached(rows[1..], parentId)
    else Attached(rows[1..], parentId)
  }

  /** The rows a valid table attaches to one parent are in distinct languages. */
  lemma {:induction false} AttachedDistinct(rows: seq<TranslationRow>, parentId: nat)
    requires UniqueKeys(rows)
    ensures DistinctLanguages(Attached(rows, parentId))
  {
    if rows != [] {
      var tail := Attached(rows[1..], parentId);
      assert UniqueKeys(rows[1..]) by {
        forall i, j | 0 <= i < j < |rows[1..]|
          ensures rows[1..][i].parentId != rows[1..][j].parentId
               || rows[1..][i].language != rows[1..][j].language
        {
          assert rows[1..][i] == rows[i + 1] && rows[1..][j] == rows[j + 1];
        }
      }
      AttachedDistinct(rows[1..], parentId);
      if rows[0].parentId == parentId {
        forall j | 0 <= j < |tail| ensures tail[j].language != rows[0].language {
          assert tail[j] in rows[1..];
          var m :| 0 <= m < |rows[1..]| && rows[1..][m] == tail[j];
          assert rows[m + 1] == tail[j];
        }
      }
    }
  }

  /** Writing a translation and then loading the parent with its translations
      makes the resolver return the written row's pair for that language:
      the new title, and the new description unless none was sent. */
  lemma ResolveAfterUpsert(rows: seq<TranslationRow>, base: Content, parentId: nat,
                           lang: string, title: string, description: Patch<Option<string>>)
    requires UniqueKeys(rows)
    ensures var r := Upserted(rows, parentId, lang, title, description);
      Resolve(base, Some(Attached(r, parentId)), lang)
        == RowContent(WrittenRow(rows, parentId, lang, title, description))
    ensures description.Set? ==>
      Resolve(base, Some(Attached(Upserted(rows, parentId, lang, title, description), parentId)), lang)
        == Content(title, description.value)
  {
    var r := Upserted(rows, parentId, lang, title, description);
    var row := WrittenRow(rows, parentId, lang, title, description);
    UpsertedExactlyOne(rows, parentId, lang, title, description);
    UpsertedUnique(rows, parentId, lang, title, description);
    AttachedDistinct(r, parentId);
    ResolveDistinct(base, Attached(r, parentId), row);
  }

  /** The table after the parent row is destroyed and the ON DELETE CASCADE
      of the translations' foreign key removes the parent's rows. */
  function WithoutParent(rows: seq<TranslationRow>, parentId: nat): (r: seq<TranslationRow>)
    ensures forall row :: row in r <==> row in rows && row.parentId != parentId
    ensures |r| <= |rows|
  {
    if rows == [] then []
    else if rows[0].parentId == parentId then WithoutParent(rows[1..], parentId)
    else [rows[0]] + WithoutParent(rows[1..], parentId)
  }

  /** The cascade keeps the schema invariants. */
  lemma WithoutParentValid(rows: seq<TranslationRow>, parentId: nat)
    requires ValidRows(rows)
    ensures ValidRows(WithoutParent(rows, parentId))
  {
    WithoutParentUnique(rows, parentId);
    var r := WithoutParent(rows, parentId);
    forall i | 0 <= i < |r| ensures Fits(r[i].language, r[i].title) {
      assert r[i] in rows;
    }
  }

  lemma UniqueKeysTail(rows: seq<TranslationRow>)
    requires rows != [] && UniqueKeys(rows)
    ensures UniqueKeys(rows[1..])
  {
    forall i, j | 0 <= i < j < |rows[1..]|
      ensures rows[1..][i].parentId != rows[1..][j].parentId
           || rows[1..][i].language != rows[1..][j].language
    {
      assert rows[1..][i] == rows[i + 1] && rows[1..][j] == rows[j + 1];
    }
  }

  /** The cascade keeps the unique index. */
  lemma {:induction false} WithoutParentUnique(rows: seq<TranslationRow>, parentId: nat)
    requires UniqueKeys(rows)
    ensures UniqueKeys(WithoutParent(rows, parentId))
  {
    if rows != [] {
      UniqueKeysTail(rows);
      WithoutParentUnique(rows[1..], parentId);
      var tail := WithoutParent(rows[1..], parentId);
      if rows[0].parentId != parentId {
        var r := [rows[0]] + tail;
        forall i, j | 0 <= i < j < |r|
          ensures r[i].parentId != r[j].parentId || r[i].language != r[j].language
        {
          if i == 0 {
            assert r[j] == tail[j - 1] && tail[j - 1] in rows[1..];
            var m :| 0 <= m < |rows[1..]| && rows[1..][m] == tail[j - 1];
            assert rows[m + 1] == r[j];
          } else {
            assert r[i] == tail[i - 1] && r[j] == tail[j - 1];
          }
        }
      }
    }
  }

  /** One entry of the `translations` payload of a create or update request,
      after `JSON.parse`. `Entry` is an object: the language key, the
      entry's `title`, which may be missing, and its `description`, which may
      be missing (`Keep`), null (`Set(None)`) or a string. `NullEntry` is a
      key whose value is null, on which reading `.title` throws. */
  datatype TranslationInput =
    | Entry(language: string, title: Option<string>, description: Patch<Option<string>>)
    | NullEntry(language: string)

  /** An entry the loop hands to the save helper. */
  predicate Titled(e: TranslationInput) {
    e.Entry? && Truthy(e.title)
  }

  /** The table after the payload loop, and whether the loop ran to its end. */
  datatype SaveResult = SaveResult(rows: seq<TranslationRow>, complete: bool)

  /** The loop `for (const [language, data] of Object.entries(translations))`
      of the create and update handlers: an entry without a truthy title is
      skipped, any other is upserted. A null entry, and a write the store
      refuses, stop the loop with the earlier writes kept. */
  function SaveEntries(rows: seq<TranslationRow>, parentId: nat,
                       entries: seq<TranslationInput>): (s: SaveResult)
    ensures |s.rows| >= |rows|
    ensures forall row :: row in s.rows ==> row in rows || row.parentId == parentId
    ensures forall i :: 0 <= i < |rows| && rows[i].parentId != parentId ==> s.rows[i] == rows[i]
    decreases |entries|
  {
    if entries == [] then SaveResult(rows, true)
    else
      var e := entries[0];
      if e.NullEntry? then SaveResult(rows, false)
      else if !Truthy(e.title) then SaveEntries(rows, parentId, entries[1..])
      else if !Fits(e.language, e.title.value) then SaveResult(rows, false)
      else SaveEntries(Upserted(rows, parentId, e.language, e.title.value, e.description),
                       parentId, entries[1..])
  }

  /** The loop keeps the schema invariants. */
  lemma {:induction false} SaveEntriesValid(rows: seq<TranslationRow>, parentId: nat,
                                           entries: seq<TranslationInput>)
    requires ValidRows(rows)
    ensures ValidRows(SaveEntries(rows, parentId, entries).rows)
    decreases |entries|
  {
    if entries != [] {
      var e := entries[0];
      if e.Entry? && !Truthy(e.title) {
        SaveEntriesValid(rows, parentId, entries[1..]);
      } else if Titled(e) && Fits(e.language, e.title.value) {
        UpsertedValid(rows, parentId, e.language, e.title.value, e.description);
        SaveEntriesValid(Upserted(rows, parentId, e.language, e.title.value, e.description),
                         parentId, entries[1..]);
      }
    }
  }

  /** The loop completes exactly when no entry is null and every titled
      entry fits the columns. */
  lemma {:induction false} SaveEntriesCompletes(rows: seq<TranslationRow>, parentId: nat,
                                               entries: seq<TranslationInput>)
    ensures SaveEntries(rows, parentId, entries).complete <==>
      forall j :: 0 <= j < |entries| ==>
        entries[j].Entry? && (Truthy(entries[j].title) ==> Fits(entries[j].language, entries[j].title.value))
    decreases |entries|
  {
    if entries != [] {
      var e := entries[0];
      var rest := entries[1..];
      assert forall j :: 0 < j < |entries| ==> entries[j] == rest[j - 1];
      if e.Entry? && !Truthy(e.title) {
        SaveEntriesCompletes(rows, parentId, rest);
      } else if Titled(e) && Fits(e.language, e.title.value) {
        SaveEntriesCompletes(Upserted(rows, parentId, e.language, e.title.value, e.description),
                             parentId, rest);
      }
    }
  }

  /** A payload in which every entry is an object without a truthy title
      writes nothing. */
  lemma {:induction false} SaveEntriesSkipsUntitled(rows: seq<TranslationRow>, parentId: nat,
                                                   entries: seq<TranslationInput>)
    requires forall j :: 0 <= j < |entries| ==> entries[j].Entry? && !Truthy(entries[j].title)
    ensures SaveEntries(rows, parentId, entries) == SaveResult(rows, true)
    decreases |entries|
  {
    if entries != [] {
      SaveEntriesSkipsUntitled(rows, parentId, entries[1..]);
    }
  }

  /** Only titled entries write: every row of the result was already in the
      table or holds the key of some titled entry. */
  lemma {:induction false} SaveEntriesOnlyTitled(rows: seq<TranslationRow>, parentId: nat,
                                                entries: seq<TranslationInput>)
    ensures forall row :: row in SaveEntries(rows, parentId, entries).rows ==>
      row in rows || exists j :: 0 <= j < |entries| && Titled(entries[j]) && HasKey(row, parentId, entries[j].language)
    decreases |entries|
  {
    if entries != [] {
      var e := entries[0];
      var rest := entries[1..];
      if e.Entry? && !Truthy(e.title) {
        SaveEntriesOnlyTitled(rows, parentId, rest);
        forall row | row in SaveEntries(rows, parentId, entries).rows && row !in rows
          ensures exists j :: 0 <= j < |entries| && Titled(entries[j]) && HasKey(row, parentId, entries[j].language)
        {
          var j :| 0 <= j < |rest| && Titled(rest[j]) && HasKey(row, parentId, rest[j].language);
          assert entries[j + 1] == rest[j];
        }
      } else if Titled(e) && Fits(e.language, e.title.value) {
        var next := Upserted(rows, parentId, e.language, e.title.value, e.description);
        SaveEntriesOnlyTitled(next, parentId, rest);
        forall row | row in SaveEntries(rows, parentId, entries).rows && row !in rows
          ensures exists j :: 0 <= j < |entries| && Titled(entries[j]) && HasKey(row, parentId, entries[j].language)
        {
          if row in next {
            assert row == WrittenRow(rows, parentId, e.language, e.title.value, e.description);
            assert HasKey(row, parentId, entries[0].language);
          } else {
            var j :| 0 <= j < |rest| && Titled(rest[j]) && HasKey(row, parentId, rest[j].language);
            assert entries[j + 1] == rest[j];
          }
        }
      }
    }
  }

  /** When entry `i` is the first to stop the loop, a null entry or a write
      the store refuses, the table is the one the earlier entries left. */
  lemma {:induction false} SaveEntriesStops(rows: seq<TranslationRow>, parentId: nat,
                                           entries: seq<TranslationInput>, i: nat)
    requires i < |entries|
    requires SaveEntries(rows, parentId, entries[..i]).complete
    requires entries[i].NullEntry? || (Titled(entries[i]) && !Fits(entries[i].language, entries[i].title.value))
    ensures SaveEntries(rows, parentId, entries)
         == SaveResult(SaveEntries(rows, parentId, entries[..i]).rows, false)
    decreases |entries|
  {
    var e := entries[0];
    var rest := entries[1..];
    if i > 0 {
      assert entries[..i][0] == e && entries[..i][1..] == rest[..i - 1];
      assert rest[i - 1] == entries[i];
      if e.Entry? && !Truthy(e.title) {
        SaveEntriesStops(rows, parentId, rest, i - 1);
      } else {
        var next := Upserted(rows, parentId, e.language, e.title.value, e.description);
        SaveEntriesStops(next, parentId, rest, i - 1);
      }
    }
  }

  /** A row whose key no titled entry of the payload names stays where it
      is, unchanged. */
  lemma {:induction false} SaveEntriesKeeps(rows: seq<TranslationRow>, parentId: nat,
                                           entries: seq<TranslationInput>, i: nat)
    requires i < |rows|
    requires rows[i].parentId == parentId ==>
      forall j :: 0 <= j < |entries| && Titled(entries[j]) ==>
        entries[j].language != rows[i].language
    ensures SaveEntries(rows, parentId, entries).rows[i] == rows[i]
    decreases |entries|
  {
    if entries != [] {
      var e := entries[0];
      if e.Entry? && !Truthy(e.title) {
        SaveEntriesKeeps(rows, parentId, entries[1..], i);
      } else if Titled(e) && Fits(e.language, e.title.value) {
        var next := Upserted(rows, parentId, e.language, e.title.value, e.description);
        assert !HasKey(rows[i], parentId, e.language);
        assert next[i] == rows[i];
        SaveEntriesKeeps(next, parentId, entries[1..], i);
      }
    }
  }

  /** When the loop runs to its end, every titled entry that no later
      titled entry overrides is in the table under (parentId, language), as
      the row its upsert wrote into the table the earlier entries left. */
  lemma {:induction false} SaveEntriesWrites(rows: seq<TranslationRow>, parentId: nat,
                                            entries: seq<TranslationInput>, i: nat)
    requires i < |entries| && Titled(entries[i])
    requires forall j :: i < j < |entries| && Titled(entries[j]) ==>
      entries[j].language != entries[i].language
    requires SaveEntries(rows, parentId, entries).complete
    ensures WrittenRow(SaveEntries(rows, parentId, entries[..i]).rows, parentId, entries[i].language,
                       entries[i].title.value, entries[i].description)
            in SaveEntries(rows, parentId, entries).rows
    decreases |entries|
  {
    var e := entries[0];
    var rest := entries[1..];
    if i == 0 {
      assert SaveEntries(rows, parentId, entries[..0]).rows == rows;
      var next := Upserted(rows, parentId, e.language, e.title.value, e.description);
      var row := WrittenRow(rows, parentId, e.language, e.title.value, e.description);
      var k :| 0 <= k < |next| && next[k] == row;
      forall j | 0 <= j < |rest| && Titled(rest[j]) ensures rest[j].language != row.language {
        assert rest[j] == entries[j + 1];
      }
      SaveEntriesKeeps(next, parentId, rest, k);
      assert SaveEntries(next, parentId, rest).rows[k] == row;
    } else {
      assert entries[..i][0] == e && entries[..i][1..] == rest[..i - 1];
      if !Truthy(e.title) {
        SaveEntriesWrites(rows, parentId, rest, i - 1);
      } else {
        var next := Upserted(rows, parentId, e.language, e.title.value, e.description);
        SaveEntriesWrites(next, parentId, rest, i - 1);
      }
    }
  }

  /** A translation table: `ProductTranslations` or `CategoryTranslations`. */
  class TranslationTable {
    var rows: seq<TranslationRow>

    ghost predicate Valid()
      reads this
    {
      ValidRows(rows)
    }

    constructor ()
      ensures Valid() && rows == []
    {
      rows := [];
    }

    /** `save*Translation`: insert the row for (parentId, language) if there is
        none, otherwise overwrite its title and, when one is sent, its
        description in place. A language or a title longer than its column
        is refused by the database and the error is rethrown with nothing
        written; the language column is reported first. */
    method Save(parentId: nat, language: string, title: string, description: Patch<Option<string>>)
        returns (r: Result<TranslationRow, StoreError>)
      requires Valid()
      modifies this
      ensures Valid()
      ensures |language| > MaxLanguageLength ==> r == Err(LanguageTooLong) && rows == old(rows)
      ensures |language| <= MaxLanguageLength && |title| > MaxTitleLength ==>
        r == Err(TitleTooLong) && rows == old(rows)
      ensures r.Ok? <==> Fits(language, title)
      ensures Fits(language, title) ==>
        && r == Ok(WrittenRow(old(rows), parentId, language, title, description))
        && rows == Upserted(old(rows), parentId, language, title, description)
    {
      if |language| > MaxLanguageLength {
        return Err(LanguageTooLong);
      }
      if |title| > MaxTitleLength {
        return Err(TitleTooLong);
      }
      var found := Find(rows, parentId, language);
      match found {
        case None =>
          var row := TranslationRow(parentId, language, title, description.ApplyTo(None));
          rows := rows + [row];
          r := Ok(row);
        case Some(k) =>
          var row := rows[k].(title := title, description := description.ApplyTo(rows[k].description));
          rows := rows[k := row];
          r := Ok(row);
      }
      UpsertedValid(old(rows), parentId, language, title, description);
    }

    /** `get*Translation`: the row for (parentId, language), or null. */
    method Get(parentId: nat, language: string := DefaultLanguage) returns (r: Option<TranslationRow>)
      requires Valid()
      ensures r.Some? <==> exists i :: 0 <= i < |rows| && HasKey(rows[i], parentId, language)
      ensures r.Some? ==> r.value in rows && HasKey(r.value, parentId, language)
    {
      match Find(rows, parentId, language) {
        case None => r := None;
        case Some(k) => r := Some(rows[k]);
      }
    }

    /** `get*Translations`: every row of one parent, in table order. */
    method GetAll(parentId: nat) returns (r: seq<TranslationRow>)
      requires Valid()
      ensures r == Attached(rows, parentId)
      ensures DistinctLanguages(r)
    {
      AttachedDistinct(rows, parentId);
      r := Attached(rows, parentId);
    }

    /** The payload loop of the create and update handlers. */
    method SaveAll(parentId: nat, entries: seq<TranslationInput>) returns (complete: bool)
      requires Valid()
      modifies this
      ensures Valid()
      ensures SaveEntries(old(rows), parentId, entries) == SaveResult(rows, complete)
    {
      var i := 0;
      while i < |entries|
        invariant 0 <= i <= |entries|
        invariant Valid()
        invariant SaveEntries(old(rows), parentId, entries) == SaveEntries(rows, parentId, entries[i..])
      {
        var e := entries[i];
        assert entries[i..][0] == e && entries[i..][1..] == entries[i + 1..];
        if e.NullEntry? {
          return false;
        }
        if Truthy(e.title) {
          var saved := Save(parentId, e.language, e.title.value, e.description);
          if saved.Err? {
            return false;
          }
        }
        i := i + 1;
      }
      return true;
    }

    /** The cascade run when the parent with id `parentId` is destroyed. */
    method RemoveParent(parentId: nat)
      requires Valid()
      modifies this
      ensures Valid()
      ensures rows == WithoutParent(old(rows), parentId)
    {
      WithoutParentValid(rows, parentId);
      rows := WithoutParent(rows, parentId);
    }
  }

  /** The column-length refusals of the write path. */
  datatype StoreError = LanguageTooLong | TitleTooLong
}
