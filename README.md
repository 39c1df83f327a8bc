# Category catalog, pagination and preference update — a Dafny model

This project models the category controller of a small e-commerce demo backend
(`backend/src/controllers/categoryController.js`):

- **Catalog generation** (`generateFakeCategories`): at start-up the server builds a
  fixture of 100 categories. Each iteration draws a random department name, makes it
  unique by trying `name`, `name 1`, `name 2`, … against a set of names already used,
  and pushes a category with a random id, product count in [10, 1000] and creation date.
  The list is then sorted by name; any exception yields an empty catalog.
  Modelled as the method `Catalog.GenerateFakeCategories` (the two nested loops, the
  inner one as `Catalog.PickUniqueName`) proved against the specification function
  `Catalog.FakeCatalog`, whose properties are lemmas.
- **Listing** (`getCategories`): the `page` query value goes through `parseInt(...) || 1`,
  the catalog is annotated with a `selected` flag (the name is among the user's stored
  names) and sliced from `(page-1)*6` to `(page-1)*6+6` with JavaScript `slice`
  semantics; `totalPages = ceil(total/6)` and `hasMore = skip + 6 < total`.
- **Preference update** (`updateUserCategories`): 401 without a user id, 400 when
  `categories` is not an array, otherwise the submitted names are filtered down to those
  that name a catalog entry (order and duplicates kept) and the user's stored list is
  overwritten with them; 404 when the user record does not exist.

Modules: `Wrappers` (Option), `JsRuntime` (the JavaScript built-ins the controller
relies on: `${n}`, `parseInt`, `String(query value)`, `Array.prototype.slice`),
`Catalog`, `UserStore` (the user records as a class holding a map from user id to
stored names), `Listing`, `Preferences`.

The faker library is an input: `faker(i)` is what the i-th iteration of the outer loop
draws, or `None` when one of those calls throws. `localeCompare` is an abstract order
`le` on names; the sortedness result assumes only that it is a total preorder.

Two behaviours of the code are kept as written, though a cleaner design would differ:
a page number below 1 is not clamped to offset 0, so JavaScript `slice` counts the
negative offset back from the end of the catalog (`Listing.NegativePagesCountFromEnd`);
and a user's stored preferences are a list that keeps order and duplicates, not a set.

## Model

| member | source | states |
|---|---|---|
| JsRuntime.Decimal | backend/src/controllers/categoryController.js:15 | the suffix text of a number is a non-empty run of decimal digits with no leading zero |
| JsRuntime.DecimalValue | backend/src/controllers/categoryController.js:15 | reading the decimal text of n back as digits gives n |
| JsRuntime.DecimalInjective | backend/src/controllers/categoryController.js:15 | distinct suffix numbers give distinct suffix texts |
| JsRuntime.TrimStart | backend/src/controllers/categoryController.js:38 | `parseInt` skips exactly the leading white space and line terminators |
| JsRuntime.DigitPrefix | backend/src/controllers/categoryController.js:38 | `parseInt` reads the longest run of digits of the radix and stops at the first non-digit |
| JsRuntime.ParseIntDecimal | backend/src/controllers/categoryController.js:38 | `parseInt` of the decimal text of n is n |
| JsRuntime.ParseMagnitudeDecimal | backend/src/controllers/categoryController.js:38 | the unsigned part of `parseInt` reads the decimal text of n as n (no `0x` confusion) |
| JsRuntime.ParseIntLeadingDecimal | backend/src/controllers/categoryController.js:38 | `parseInt` of a positive decimal number followed by a non-digit is that number |
| JsRuntime.ParseIntNoDigits | backend/src/controllers/categoryController.js:38 | text that starts with neither white space, sign nor digit is `NaN` |
| JsRuntime.ParseInt | backend/src/controllers/categoryController.js:38 | `parseInt` is `NaN` exactly when, after white space and one sign, no digit follows (or `0x` is followed by no hex digit) |
| JsRuntime.ParseMagnitude | backend/src/controllers/categoryController.js:38 | the unsigned part is `NaN` exactly when no digit of the chosen radix leads it, and otherwise a non-negative number |
| JsRuntime.Join | backend/src/controllers/categoryController.js:38 | `String` of a repeated query value starts with the first value, followed by a comma when more values follow |
| JsRuntime.ToJsString | backend/src/controllers/categoryController.js:38 | `String` leaves a single text value unchanged and puts the first of repeated values first |
| JsRuntime.RelativeIndex | backend/src/controllers/categoryController.js:51-54 | a `slice` bound within the list is itself, a negative one counts back from the end, and out-of-range bounds clamp to 0 or the length |
| JsRuntime.Slice | backend/src/controllers/categoryController.js:51-54 | `slice` returns the contiguous run between the two resolved bounds, empty when they cross |
| JsRuntime.SliceNonNegative | backend/src/controllers/categoryController.js:51-54 | for bounds 0 <= start <= end, `slice` is the run of entries from start, cut at end and at the end of the list |
| Catalog.Candidate | backend/src/controllers/categoryController.js:11-15 | the first name tried is the base name itself, and each later one is the base name, a space and a suffix |
| Catalog.CandidateInjective | backend/src/controllers/categoryController.js:14-16 | the names tried for one base name (`base`, `base 1`, `base 2`, …) are pairwise distinct |
| Catalog.FreshFromSpec | backend/src/controllers/categoryController.js:14-16 | the suffix search ends on a name not yet used, and every earlier candidate was used |
| Catalog.FreshName | backend/src/controllers/categoryController.js:11-16 | the chosen name is not in the set of names already used |
| Catalog.FreshNameIsFirstUnused | backend/src/controllers/categoryController.js:11-16 | the chosen name is the first of `base`, `base 1`, `base 2`, … that is not used |
| Catalog.PickUniqueName | backend/src/controllers/categoryController.js:11-16 | the inner loop terminates and returns the first unused candidate |
| Catalog.Entry | backend/src/controllers/categoryController.js:18-24 | a pushed category carries the draw's id, count and date under a name not used before |
| Catalog.BuildLength | backend/src/controllers/categoryController.js:9 | a successful build has exactly one entry per iteration |
| Catalog.BuildStaysFailed | backend/src/controllers/categoryController.js:28-30 | once a faker call has thrown, generation has failed for good |
| Catalog.BuildFails | backend/src/controllers/categoryController.js:9-23 | building n entries fails exactly when one of the first n draws throws |
| Catalog.BuildStep | backend/src/controllers/categoryController.js:9-24 | a successful iteration appends exactly the entry for the next draw |
| Catalog.BuildEntries | backend/src/controllers/categoryController.js:9-24 | a successful build has n entries; entry i has draw i's id, count and date under the first unused name for draw i's base name given the earlier names |
| Catalog.BuildCounts | backend/src/controllers/categoryController.js:22 | every pushed product count lies in [10, 1000] |
| Catalog.BuildDistinct | backend/src/controllers/categoryController.js:7-18 | every pushed name differs from all earlier ones |
| Catalog.Insert | backend/src/controllers/categoryController.js:27 | inserting into the sorted list adds exactly one entry (multiset) |
| Catalog.SortByName | backend/src/controllers/categoryController.js:27 | sorting is a permutation of its input |
| Catalog.InsertSorted | backend/src/controllers/categoryController.js:27 | inserting into a sorted list keeps it sorted under a total preorder |
| Catalog.SortByNameSorted | backend/src/controllers/categoryController.js:27 | the sorted list is ordered by name under any total preorder |
| Catalog.InsertDistinct | backend/src/controllers/categoryController.js:27 | inserting a new name keeps names pairwise distinct |
| Catalog.SortByNameDistinct | backend/src/controllers/categoryController.js:27 | sorting keeps names pairwise distinct |
| Catalog.FakeCatalog | backend/src/controllers/categoryController.js:4-34 | the catalog is either empty or holds exactly 100 categories |
| Catalog.FakeCatalogSize | backend/src/controllers/categoryController.js:9-31 | the catalog is empty exactly when a faker call threw, and otherwise has exactly 100 entries |
| Catalog.FakeCatalogSortedDistinct | backend/src/controllers/categoryController.js:7-27 | the catalog has pairwise distinct names and is sorted by name under any total preorder |
| Catalog.FakeCatalogEntries | backend/src/controllers/categoryController.js:19-27 | the catalog is a permutation of the built list and every product count lies in [10, 1000] |
| Catalog.GenerateFakeCategories | backend/src/controllers/categoryController.js:4-32 | the nested loops and sort compute exactly the specified catalog (empty on a throw) |
| UserStore.Users.FindById | backend/src/controllers/categoryController.js:43 | a lookup finds the stored names exactly when the user exists |
| UserStore.Users.FindByIdAndUpdate | backend/src/controllers/categoryController.js:86-90 | the user's list is overwritten, others untouched, the new list returned; an unknown user changes nothing |
| Listing.PageNumber | backend/src/controllers/categoryController.js:38 | the page number is never 0 |
| Listing.PageNumberDecimal | backend/src/controllers/categoryController.js:38 | a positive page written in decimal is that page |
| Listing.PageNumberMissing | backend/src/controllers/categoryController.js:38 | an absent (or object-valued) `page` gives page 1 |
| Listing.PageNumberZero | backend/src/controllers/categoryController.js:38 | `page=0` gives page 1 |
| Listing.PageNumberNonNumeric | backend/src/controllers/categoryController.js:38 | every `page` text that `parseInt` reads as `NaN` (empty, white space only, a sign or `0x` with no digit after, a leading non-digit) gives page 1 |
| Listing.PageNumberRepeated | backend/src/controllers/categoryController.js:38 | a repeated `page` parameter is read by its first value, written in decimal |
| Listing.WithSelection | backend/src/controllers/categoryController.js:46-49 | an annotated entry keeps every catalog field and is selected exactly when its name is stored for the user |
| Listing.ListPage | backend/src/controllers/categoryController.js:39-63 | every page holds at most 6 items; it echoes the page number, the catalog size and the stored names; the page count is the least that covers the catalog |
| Listing.CeilDiv | backend/src/controllers/categoryController.js:59 | the page count q is the least with 6q >= total |
| Listing.TotalPagesCoverCatalog | backend/src/controllers/categoryController.js:41-59 | `totalPages` pages of 6 hold the catalog and one fewer would not |
| Listing.PageContents | backend/src/controllers/categoryController.js:39-62 | for page >= 1 the items are the contiguous catalog run from (page-1)*6 of length min(6, max(0, total-skip)), each unchanged but for `selected`, which holds iff the name is stored for the user; the full stored list is returned |
| Listing.HasMoreMeansEntriesBeyond | backend/src/controllers/categoryController.js:61 | for page >= 1, `hasMore` holds iff some catalog entry lies after the returned items |
| Listing.LastPageOfFullCatalog | backend/src/controllers/categoryController.js:39-61 | with 100 entries: 17 pages, page 17 has 4 items starting at entry 96, `hasMore` false |
| Listing.NegativePageCountsFromEnd | backend/src/controllers/categoryController.js:38-61 | page -1 of 100 entries returns entries 88 to 93 with `hasMore` true (no clamping) |
| Listing.NegativePagesCountFromEnd | backend/src/controllers/categoryController.js:38-61 | for any page <= -1 the items are the catalog run starting total+(page-1)*6 entries in, clipped at 0, of up to 6 entries, and `hasMore` is always true |
| Listing.NothingSelectedForEmptyPreferences | backend/src/controllers/categoryController.js:44-49 | with no stored names every item is unselected |
| Listing.GetCategories | backend/src/controllers/categoryController.js:36-63 | the handler answers with the page for the parsed page number and the user's stored names, or none when the user is missing |
| Preferences.StatusCode | backend/src/controllers/categoryController.js:75-97 | only a successful update answers 200; every rejection answers with a 4xx status |
| Preferences.InCatalog | backend/src/controllers/categoryController.js:83 | a name passes the check exactly when it is the name of some catalog entry |
| Preferences.ValidCategories | backend/src/controllers/categoryController.js:82-84 | the validated list is no longer than the submitted one and holds only catalog names |
| Preferences.ValidCategoriesSubsequence | backend/src/controllers/categoryController.js:82-84 | the validated list is a subsequence of the input (order kept) |
| Preferences.ValidCategoriesCounts | backend/src/controllers/categoryController.js:82-84 | the validated list holds each catalog name exactly as often as submitted, and nothing else |
| Preferences.ValidCategoriesKeepsCatalogNames | backend/src/controllers/categoryController.js:82-84 | a list of catalog names passes validation unchanged |
| Preferences.ValidCategoriesIdempotent | backend/src/controllers/categoryController.js:82-84 | validating the validated list again changes nothing |
| Preferences.UnknownNameDropped | backend/src/controllers/categoryController.js:82-84 | one known and one unknown name store only the known one |
| Preferences.UpdateUserCategories | backend/src/controllers/categoryController.js:72-97 | 401 without user id, 400 for a non-array with no write, 404 for an unknown user with no write, else 200 and the user's list is replaced by the validated list and nothing else changes; the status code sent is stated for each case |

## Left out

- Persistence: `User.findById` and `User.findByIdAndUpdate` on MongoDB are replaced by the in-memory class `UserStore.Users`; field projections (`select`) and other user fields are not modelled.
- The 500 answers: exceptions thrown by the database or by a missing `req.user` in `getCategories` are not modelled (the authentication middleware supplies the user).
- Randomness: faker's department names, UUIDs, counts and past dates are inputs; the format of an id and the range of a date are not modelled (a date is an opaque integer).
- Catalog.SortByName: the engine's sort algorithm is stood in for by a stable insertion sort; the model proves sortedness and permutation, and that the result equals the engine's output is not stated. Exact `localeCompare` collation is an abstract order.
- Catalog.BuildCounts: the range [10, 1000] of a product count is a promise of `faker.number.int({ min: 10, max: 1000 })`, taken as given through the type `Catalog.DrawnCount` of a draw's count; the controller itself does not check it, so the lemma restates the library's promise rather than a check in the code (the same holds for the count part of `Catalog.FakeCatalogEntries`).
- Numbers are exact integers: `parseInt` results beyond 2^53, `-0`, and floating-point rounding in `(page - 1) * 6` and `Math.ceil(total / limit)` are not modelled.
- Logging (`console.log`, `console.error`) and the JSON response framing are left out.
- Concurrent requests (last write wins on a user's list) are not modelled; each handler runs alone.
- `backend/src/routes/categoryRoutes.js` only wires routes; the `getUserCategories` handler it imports does not exist in the controller, so there is nothing to model.
- `backend/src/server.js` and the frontend pages are HTTP, database and UI plumbing and are not part of this model.
