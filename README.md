# OrioNN QR menu server: catalog, translation and account rules in Dafny

This project models the rule layer of the OrioNN QR menu back end. The back
end is an Express/Sequelize service that serves a restaurant menu of
categories and products, each with per-language translations.

The model covers:

- the translation resolver that picks a language variant of an entity's
  title and description;
- the translation tables, with their unique (parent, language) index, the
  upsert the save helpers perform, and the cascade that removes a deleted
  parent's rows;
- the mutually recursive response formatters for categories and products;
- the category and product handlers, as guarded state transitions on a
  catalog object;
- the list endpoints' pagination arithmetic and sort-parameter whitelists;
- the account rules of the user controller;
- the de-duplication of video formats by resolution.

Modules, by file:

| file | module | form |
|---|---|---|
| common.dfy | Common | `Option`, `Result`, `Patch` (the `x !== undefined ? x : old` fallback), JavaScript truthiness and the `x \|\| old` fallback |
| translation.dfy | Translation | translation rows and the resolver, as functions and lemmas |
| translation_store.dfy | TranslationStore | the table as a sequence of rows with a uniqueness invariant; a `TranslationTable` class whose methods upsert, look up and cascade |
| formatter.dfy | Formatter | loaded categories and products as inductive datatypes, and the two formatters |
| catalog.dfy | Catalog | `Catalog` class holding the category and product tables and both translation tables |
| listing.dfy | Listing | pagination and sort normalisation, as functions |
| accounts.dfy | Accounts | `UserStore` class holding the user table; login as a function |
| video.dfy | Video | the filter/dedup pipeline as a loop with the list of resolutions already emitted, proved against a recursive specification |

Inputs the program reads from its environment become parameters:

- the uploaded file name is the `image` argument;
- the parsed `translations` payload is an `Option<seq<TranslationInput>>`; a value that is neither an object nor null has no `title` and is an entry without one;
- the authenticated caller of delete/deactivate is `caller: Option<nat>`;
- `ytdl.validateURL` is `urlValid: bool`;
- the result of `ytdl.getInfo` is `fetch: Option<VideoInfo>`.

Handlers return `Result` values instead of HTTP responses.

The response formatters have no recursion guard. A category embedded in a
product is formatted together with whatever products the query loaded
for it, and so on down. They terminate because a loaded object graph is a
finite value. The node datatypes are built that way.

## Model

| member | source | states |
|---|---|---|
| Translation.FirstMatch | src/models/Product.js:50 | `find` stops at the first row in the language, and a position past the end means no row has it |
| Translation.Resolve | src/models/Product.js:48-63 | with a row in the language, the pair of the first such row; with no list, an empty list or no match, the base pair; the result is never mixed, and the default language is "tr" |
| Translation.ResolveDistinct | src/models/Product.js:49-56 | when the attached rows are in distinct languages, a language that has a row resolves to exactly that row's pair |
| Translation.ResolveIgnoresLaterRows | src/models/Product.js:50 | rows after the first match never change the result (first match wins) |
| Formatter.CategoryNode.TranslatedContent | src/models/Category.js:42-59 | the category resolver: the first matching row's pair, else the base pair |
| Formatter.ProductNode.TranslatedContent | src/models/Product.js:48-63 | the product resolver: the first matching row's pair, else the base pair |
| Formatter.FormatCategory | src/utils/translationUtils.js:132-150 | title and description are the resolver's output; id, image, flag and timestamps copied; missing translations give []; missing products give []; present products are each formatted with the same language, count and order kept |
| Formatter.FormatProduct | src/utils/translationUtils.js:153-172 | title and description are the resolver's output; id, price, image, categoryId, flag and timestamps copied; a missing viewCount gives 0; missing translations give []; a missing category gives null, a present one is formatted with the same language |
| Formatter.CategoryShapeLanguageIndependent | src/utils/translationUtils.js:132-150 | at every depth, the language changes only titles and descriptions of a formatted category |
| Formatter.ProductShapeLanguageIndependent | src/utils/translationUtils.js:153-172 | at every depth, the language changes only titles and descriptions of a formatted product |
| Formatter.FormatUsesStoredRow | src/utils/translationUtils.js:153-159 | a product whose rows come from a table with the unique index is formatted with the stored row of the requested language |
| TranslationStore.Find | src/utils/translationUtils.js:20-33 | the position of the first row with key (parent, language), or none when no row has that key |
| TranslationStore.WrittenRow | src/utils/translationUtils.js:76-94 | the row written under the key has the new title; a description that was sent is stored as sent, including null; with none sent, a new row gets null and an existing row keeps its description |
| TranslationStore.Upserted | src/utils/translationUtils.js:69-99 | the table grows by one row exactly when the key was absent; the written row is present; rows with other keys stay where they were; no other row appears |
| TranslationStore.UpsertedUnique | src/models/ProductTranslation.js:32-37 | the upsert keeps at most one row per (parent, language) |
| TranslationStore.UpsertedValid | src/models/ProductTranslation.js:18-37 | the upsert keeps the unique index and the column lengths (five-character language, 255-character title) when language and title fit |
| TranslationStore.UpsertedExactlyOne | src/utils/translationUtils.js:76-94 | after an upsert, exactly one row holds the key, and it is the written row |
| TranslationStore.UpsertedIdempotent | src/utils/translationUtils.js:76-94 | upserting the same arguments twice gives the table of one upsert |
| TranslationStore.Attached | src/utils/translationUtils.js:102-129 | a parent's rows are exactly the table's rows with that parent id |
| TranslationStore.AttachedDistinct | src/models/CategoryTranslation.js:32-37 | the rows of one parent in a valid table are in distinct languages |
| TranslationStore.ResolveAfterUpsert | src/utils/translationUtils.js:43-61 | after saving a category translation and loading the category, the resolver returns the written row's pair for that language: the new title, and the new description whenever one was sent |
| TranslationStore.WithoutParent | src/models/ProductTranslation.js:41-46 | the cascade keeps exactly the rows of other parents |
| TranslationStore.WithoutParentValid | src/models/CategoryTranslation.js:41-46 | the cascade keeps the unique index and the column lengths |
| TranslationStore.WithoutParentUnique | src/models/CategoryTranslation.js:32-46 | the cascade keeps at most one row per (parent, language) |
| TranslationStore.SaveEntries | src/controllers/productController.js:73-84 | the payload loop never removes rows; it only adds or rewrites rows of this parent; other parents' rows stay at their place |
| TranslationStore.SaveEntriesValid | src/controllers/categoryController.js:55-66 | the payload loop keeps the table's schema invariants |
| TranslationStore.SaveEntriesCompletes | src/controllers/categoryController.js:55-66 | the loop runs to its end exactly when no entry is null and every titled entry fits the language and title columns |
| TranslationStore.SaveEntriesSkipsUntitled | src/controllers/productController.js:75 | a payload whose entries are all objects without a truthy title writes nothing |
| TranslationStore.SaveEntriesOnlyTitled | src/controllers/productController.js:73-84 | in any payload, every row of the result was already in the table or holds the key of an entry with a truthy title, so untitled entries never write |
| TranslationStore.SaveEntriesKeeps | src/controllers/categoryController.js:330-341 | a row whose key no titled entry names is left untouched |
| TranslationStore.SaveEntriesWrites | src/controllers/productController.js:321-332 | when the loop completes, every titled entry not overridden by a later one is stored under (parent, language) as the row its upsert wrote, so with the entry's title, with its description when one was sent, and otherwise with the description the row already had, or null |
| TranslationStore.SaveEntriesStops | src/controllers/categoryController.js:55-66 | when a null entry or a refused write stops the loop, the table is exactly what the entries before it left |
| TranslationStore.TranslationTable.constructor | src/models/ProductTranslation.js:1-49 | an empty valid table |
| TranslationStore.TranslationTable.Save | src/utils/translationUtils.js:36-66 | a language longer than five characters, then a title longer than 255, is refused with nothing written, and it succeeds exactly when both fit; then the new table is the upsert of the old one, and the reply is the written row |
| TranslationStore.TranslationTable.Get | src/utils/translationUtils.js:4-17 | a row is returned exactly when one holds the key, and then it is that row |
| TranslationStore.TranslationTable.GetAll | src/utils/translationUtils.js:117-129 | the parent's rows, in distinct languages |
| TranslationStore.TranslationTable.SaveAll | src/controllers/categoryController.js:55-66 | the loop's final table and completion flag are those of `SaveEntries` on the old table |
| TranslationStore.TranslationTable.RemoveParent | src/models/CategoryTranslation.js:41-46 | the new table is the cascade of the old one, still valid |
| Catalog.CheckCategory | src/controllers/productController.js:47-61 | a truthy category reference passes exactly when the category exists and is active; a missing one gives not-found, an inactive one gives inactive |
| Catalog.Catalog.constructor | src/models/Category.js:1-29 | an empty valid catalog |
| Catalog.Catalog.CreateCategory | src/controllers/categoryController.js:8-66 | a missing or empty title, then an existing equal title, reject with nothing written; otherwise the category is stored active under a fresh id and the titled translations are written |
| Catalog.Catalog.SaveTranslations | src/controllers/categoryController.js:54-66 | the parent's table becomes `SaveEntries` of the payload; an absent payload writes nothing |
| Catalog.Catalog.UpdateCategory | src/controllers/categoryController.js:295-341 | a missing id gives not-found; a truthy new title that differs from the current one and belongs to another category is rejected; otherwise title falls back with `\|\|`, description and flag with `undefined`, image only when a file came; nothing else changes |
| Catalog.Catalog.DeleteCategory | src/controllers/categoryController.js:373-392 | a missing id gives not-found; any product referencing the category, active or not, refuses the delete; otherwise the category and its translations go |
| Catalog.Catalog.SetCategoryActive | src/controllers/categoryController.js:409-470 | only the category's flag changes; products are untouched |
| Catalog.Catalog.CreateProduct | src/controllers/productController.js:30-84 | a missing title, then a missing or negative price, then a bad category reference, reject with nothing written; otherwise the product is stored active with zero views under a fresh id and the titled translations are written |
| Catalog.Catalog.UpdateProduct | src/controllers/productController.js:275-332 | a missing id gives not-found; a negative price is rejected; a truthy category that differs from the current one must exist and be active; otherwise each field left out keeps its value |
| Catalog.Catalog.DeleteProduct | src/controllers/productController.js:370-379 | a missing id gives not-found; otherwise only the product and its translations go, with no dependency check |
| Catalog.Catalog.SetProductActive | src/controllers/productController.js:396-457 | only the product's flag changes |
| Catalog.Catalog.IncrementView | src/controllers/productController.js:533-550 | the stored count grows by exactly one and the reply reports the old count plus one |
| Listing.TotalPages | src/controllers/productController.js:179 | `Math.ceil(count / limit)`: the least number of pages of `limit` rows that hold `count` rows, 0 exactly for no rows |
| Listing.PageOf | src/controllers/productController.js:130-163 | the window at `(page-1)*limit`: at most `limit` consecutive rows, fewer at the end, none past it |
| Listing.PageNonEmpty | src/controllers/categoryController.js:96-132 | a page has rows exactly when its number is at most `totalPages` |
| Listing.PagesPrefix | src/controllers/productController.js:130 | the first n pages laid end to end are the first n·limit rows |
| Listing.OffsetSkipsEarlierPages | src/controllers/productController.js:130 | `(page - 1) * limit` skips exactly the rows of the pages before `page` |
| Listing.PagesCoverAll | src/controllers/userController.js:145-186 | pages 1 to `totalPages` give every row once, in order |
| Listing.Paginate | src/controllers/productController.js:119-196 | page and limit default to 1 and 10; the envelope's total pages is the ceiling of count over limit |
| Listing.SortField | src/controllers/productController.js:148-153 | a whitelisted column is kept; any other, or none, becomes `createdAt`, which is itself whitelisted |
| Listing.SortFieldWhitelisted | src/controllers/productController.js:148-153 | for both the product and the user whitelist, the normalised column is in that whitelist |
| Listing.SortOrder | src/controllers/productController.js:149-156 | the upper-cased order is kept when it is ASC or DESC; anything else becomes DESC; the result is always ASC or DESC |
| Listing.Upper | src/controllers/productController.js:154 | `toUpperCase` maps letter by letter and keeps the length |
| Listing.SortOrderIgnoresCase | src/controllers/userController.js:173-175 | two spellings that differ only in letter case give the same order |
| Listing.SortOrderIdempotent | src/controllers/userController.js:168-175 | a normalised order normalises to itself |
| Accounts.Hash | src/controllers/userController.js:19-21 | a hash verifies against its password and no other |
| Accounts.CompareIsHashEquality | src/controllers/userController.js:92 | `bcrypt.compare` accepts a password exactly when the stored hash is the hash of that password |
| Accounts.Authenticate | src/controllers/userController.js:69-114 | an unknown email, then an inactive account, then a wrong password, reject in that order; otherwise the reply is the user's picked fields, without the hash, and the user's role |
| Accounts.LoginAfterRegister | src/controllers/userController.js:11-31 | a new account logs in with its own password and not with any other |
| Accounts.LoginAfterPasswordChange | src/controllers/userController.js:432-448 | after a password change, an active account logs in with the new password and not with any other |
| Accounts.UserStore.constructor | src/models/User.js:1-45 | an empty valid table over a given set of role ids |
| Accounts.UserStore.Register | src/controllers/userController.js:8-46 | an email in use rejects with nothing added; then a role id naming no role fails on the foreign key with nothing added; otherwise the user is stored active with the hash of the password under a fresh id, and the reply has the picked fields, neither the hash nor the role id |
| Accounts.UserStore.Login | src/controllers/userController.js:67-114 | the result is `Authenticate` on the current table |
| Accounts.UserStore.UpdateUser | src/controllers/userController.js:250-288 | a missing id gives not-found; a truthy, changed email held by another user is rejected; then a truthy role id naming no role fails on the foreign key with nothing changed; otherwise names, email and role fall back with `\|\|`, phone and flag with `undefined`, and the reply is the updated row without the hash, the role id included |
| Accounts.UserStore.DeleteUser | src/controllers/userController.js:311-328 | a missing id gives not-found; the caller's own account is refused with nothing changed; otherwise only that user goes |
| Accounts.UserStore.ActivateUser | src/controllers/userController.js:350-365 | a missing id gives not-found; otherwise only the flag changes, to true, and the reply is the whole updated row, password hash included |
| Accounts.UserStore.DeactivateUser | src/controllers/userController.js:382-405 | a missing id gives not-found; the caller's own account is refused; otherwise only the flag changes, to false, and the reply is the whole updated row, password hash included |
| Accounts.UserStore.ChangePassword | src/controllers/userController.js:423-448 | a missing id gives not-found; a wrong current password is refused with the hash unchanged; otherwise the hash of the new password is stored |
| Video.Resolutions | src/controllers/VideoController.js:22-25 | the resolutions of the response entries, position by position |
| Video.ViewOfQualifying | src/controllers/VideoController.js:17-33 | a format that passes the filter (mp4, with video, non-empty quality label) becomes an mp4 entry with video whose resolution is its quality label, with itag, audio flag and size copied |
| Video.Dedup | src/controllers/VideoController.js:17-37 | the response built from the first n formats has at most n entries, each an mp4 entry with video and a non-empty resolution |
| Video.Origins | src/controllers/VideoController.js:21-37 | each response entry is the view of an earlier input format |
| Video.DedupCovers | src/controllers/VideoController.js:16-25 | every qualifying resolution of the input is in the response |
| Video.OriginsAreFirsts | src/controllers/VideoController.js:24-25 | each response entry comes from the first qualifying format of its resolution |
| Video.OriginsIncrease | src/controllers/VideoController.js:21-37 | response entries follow input order |
| Video.FirstsAreOrigins | src/controllers/VideoController.js:16-37 | the first qualifying format of each resolution is in the response |
| Video.DedupCharacterized | src/controllers/VideoController.js:16-37 | the response is exactly the first qualifying format of each resolution, in input order |
| Video.DistinctResolutions | src/controllers/VideoController.js:24-25 | no resolution appears twice |
| Video.FormatsQualify | src/controllers/VideoController.js:17-33 | every entry copies itag, container, flags and size of an mp4 format with video and a quality label |
| Video.FilterFormats | src/controllers/VideoController.js:14-37 | the loop with the list of resolutions seen returns the specified de-duplicated list |
| Video.GetVideoFormats | src/controllers/VideoController.js:3-46 | an invalid URL is refused before the fetch; a failed fetch is an error; otherwise the title and the de-duplicated list |

## Left out

- HTTP plumbing: request parsing, status codes, JSON envelopes, `src/server.js` and the routers. Outcomes are `Result` values.
- Route validation in the routers. Handlers accept any strings. The product and category lists' validators (`page >= 1`, `1 <= limit <= 100`) appear only as preconditions: `page >= 1` for the offset and `limit >= 1` for the page count. The upper bound of 100 is not needed by any contract.
- Token signing and checking (`jsonwebtoken`), and the authentication middleware. The authenticated caller is a parameter.
- bcrypt internals. Hashing is an injective function; salt, cost and the 72-byte input limit are not modelled.
- SQL details:
  - the LIKE search and the `isActive` / `categoryId` list filters;
  - the ordering `findAndCountAll` performs;
  - `include` clauses with `where` and `required: false`;
  - MySQL's case-insensitive collation. Title, email and key comparisons are exact here.
- `JSON.parse` of the translations string. A payload that fails to parse is the absent payload.
- Atomicity of concurrent requests and of `increment`. Operations run one at a time; no handler is a transaction, so translation rows written before a refused one are kept (`TranslationRejected`).
- Timestamps. They live only in the formatter's node types, as opaque values.
- The role, visitor and download controllers, `src/models/index.js` and the database scripts.
- Catalog.Catalog.CreateProduct: `parseFloat` and JavaScript coercion in `price < 0` are not modelled; the price is a `real`.
- Catalog.Catalog.UpdateProduct: a `null` price (stored as `parseFloat(null)`) and a `null` title are not modelled; the category guard compares values, not the JavaScript `!==` of a form-data string with a number.
- Catalog.Catalog.CreateProduct and Catalog.Catalog.UpdateProduct store a falsy category reference (`0`) unchecked, as the handlers do; the database foreign key that would then reject the write is not modelled.
- Listing.Upper: does not model Unicode case mapping, because only ASCII letters are mapped (`toUpperCase` also maps non-ASCII letters, some to ASCII).
- Listing.PageOf: the rows are the filtered, ordered result of the query; the query itself is not modelled.
- `getProductsByCategory` uses the same arithmetic; its category lookup is left out with the other SQL.
- `getAllUsers` has no paging validators, so its page and limit reach the arithmetic unchecked. A limit of 0 (`Math.ceil` of a division by zero: `Infinity`, or `NaN` when nothing matches), a page below 1 (a negative offset) and non-numeric values are not modelled; the precondition excludes them. Its user filters are left out with the other SQL.
- Role objects. The login reply carries the role association; here it is the role id it is loaded by.
- Column lengths outside the translation tables: the VARCHAR(255) title, email and name columns of the category, product and user tables, and the byte limit of the TEXT `description` columns, are not modelled; only the translation `language` and `title` lengths refuse writes here.
- The Roles table. Its ids are a constant of the user store, which the user handlers only read; the role controller that creates and deletes roles is out of scope.
- `src/models/Product.js` declares neither `price` nor `viewCount`. The model treats both as columns of the product row, as the handlers do. As declared, Sequelize would not store `price` on create, and the `viewCount + 1` of the view-count reply would be computed from an attribute `findByPk` does not select.
- A truthy translation `title` that is not a string (a number, `true`, an object) is not modelled; titles are `Option<string>`.
- Catalog.Catalog.IncrementView: does not model overflow of the INTEGER `viewCount` column, because counts are unbounded `nat`s; the ids' INTEGER range is likewise not modelled.
