# Book shop page: catalog, filter, search and cart

A Dafny model of the script behind a one-page book shop (`index.js`). The page
loads a JSON array of book objects and normalises each one into a record. A
missing or falsy field gets a fixed default, the category is trimmed, the
rating is clamped to 0..5, and an id is derived from title, authors and year.
The records are shown in a table with a five-star rating cell. The page offers
a category selector built from the distinct categories, plus one extra "Comic"
option. A search box highlights the rows whose title contains the term. A cart
takes one book at a time with a quantity from 1 to 99, merges entries with the
same id, and shows the total quantity on a badge.

The modules follow the script:

- `Text`, `Raw`: the JavaScript string and value semantics the script relies on.
  - Truthiness, `String(v)` and `Number(v)`.
  - `parseInt`.
  - `trim()` over the ECMAScript white-space set.
  - ASCII `toLowerCase()` and `includes`.
- `Slug`: `generateBookId`, including its replace chain.
- `Books`: the normalisation done in `loadBooks`. A failure is a `Result` error rather than a thrown exception.
- `Categories`: the selector options. This is `new Set`, then the default `sort()` (string order by code point), then the sentinel option.
- `Filter`: `applyCategoryFilter`'s selection and the search match.
- `Render`: the table.
  - A class `BookList` whose `rows` the methods rebuild with the source's loops.
  - Specified by the function `View`.
- `Cart`: the cart as a class `ShoppingCart` with `items` and the badge value `cartCount`.
  - Specified by the function `AddTo` and the sums `TotalQuantity` and `QuantityOf`.
- `App`: the page's state as a class `Shop` and its event handlers, plus the load outcome.

Choices the model makes about inputs:

- A JSON element that is `null` is `None`. Any other element is read as an object; one that is not an object has no fields.
- A document that is not an array is `NotAnArray`.
- A category that is a non-zero number has no `trim`. It makes the whole load fail with the format error, as do a `null` element and a non-array document.
- Dialog answers are parameters. The quantity prompt's text is `Option<string>`, where `None` means cancelled. The reset confirmation is a `bool`.
- The checked row is an optional row index.

Where the code does not do what one might expect, the model follows the code:

- The cart's 1..99 check applies to each single add only. Merged quantities can exceed 99 (`Cart.MergedQuantityIsNotCapped`).
- The "Comic" option's value `invalid-cat` is meant to match nothing. It does match a record whose category is `invalid-cat` in any case (`Filter.SentinelMatchesNothingUnlessNamed`).
- The id `invalid-book-id` marks a record without title, authors or year. A complete record can produce the same id (`Slug.SentinelCollides`), and the cart then merges the two (`Cart.SameIdMerges`).
- `handleSearch` on a table that holds the placeholder or the error row throws at that row. `Render.HighlightRows` stops there and leaves the rest unchanged.

## Model

| member | source | states |
|---|---|---|
| Text.TrimExact | index.js:82 | Trimming white space around a trimmed core gives exactly that core, for the full ECMAScript white-space and line-terminator set |
| Text.TrimIdempotent | index.js:82 | Trimming twice is trimming once |
| Text.Lower | index.js:117 | Lower-casing keeps the length and leaves no upper-case letter |
| Text.LowerIdempotent | index.js:117 | Lower-casing twice is lower-casing once |
| Text.ContainsAt | index.js:243 | `includes` holds exactly when the term occurs at some position of the title |
| Text.NatDecimalRoundTrip | index.js:83 | Reading back the decimal numeral of a natural number gives the number |
| Text.ParseNumberRoundTrip | index.js:83 | `Number(String(n))` is `n` for every integer |
| Text.ParseIntLeadingNumeral | index.js:325 | `parseInt` of a decimal numeral followed by a non-digit (or nothing) is that numeral's value; this matches JavaScript except for a lone `0` followed by `x`/`X`, which JavaScript reads as hexadecimal (see Left out) |
| Raw.TextOr | index.js:79-81 | `v \|\| default`: a truthy value gives its non-empty text, a falsy one the default |
| Slug.ReplaceNonAlnumRuns | index.js:118 | Each run of other characters becomes one hyphen. The result holds only `a-z0-9-`, never two hyphens in a row, and the same letters and digits |
| Slug.SquashAfterReplaceRedundant | index.js:118-119 | The `-+` squash changes nothing after the first replacement |
| Slug.SlugWellFormed | index.js:116-121 | Every id the chain produces holds only `a-z0-9-`, has no double hyphen and no hyphen at either end |
| Slug.SlugKeepsAlnum | index.js:116-121 | The id holds exactly the letters and digits of the lower-cased text, in order |
| Slug.SlugIdempotent | index.js:116-121 | Applying the chain to an id gives the id back |
| Slug.SlugOfLower | index.js:117 | Lower-casing before the chain changes nothing |
| Slug.SlugOfTwoWords | index.js:116-121 | any text whose lower-case form is a word, a run of other characters, a word and an optional trailing run (such as "Foo Bar!") gives `word-word` |
| Slug.GenerateBookId | index.js:105-121 | A missing or falsy title, authors or year gives `invalid-book-id`. Otherwise the id is the slug of `title-authors-year`, keeping its letters and digits. Either way the id is well formed |
| Slug.SentinelCollides | index.js:109-113 | The complete record "Invalid" / "Book" / "ID" gets the id `invalid-book-id` too |
| Books.ClampRating | index.js:83 | The rating is in 0..5. NaN gives 0, a value already in 0..5 is kept, a value above 5 gives 5 and a negative one 0 |
| Books.RatingTextAsNumber | index.js:83 | A rating written as a decimal string counts the same as the number |
| Books.CategoryOf | index.js:82 | The category is trimmed, and falsy means "Uncategorized". It fails exactly for a non-zero number, which has no `trim` |
| Books.NormalizeBook | index.js:78-88 | One element becomes a well-formed record with the `generateBookId` id. It fails with the format error exactly when its category cannot be trimmed |
| Books.NormalizeDefaults | index.js:79-86 | Each falsy field takes its fixed default and each truthy one keeps its text. A falsy price becomes 0. The rating is always the clamped number of the raw value, so a falsy or non-numeric one gives 0 |
| Books.MapResultsSpec | index.js:78 | A `map` whose callback may throw succeeds exactly when every callback does. Result `i` is then the callback's value on element `i`, and a failed map carries one element's error |
| Books.NormalizeAllSpec | index.js:78-88 | `data.map` succeeds exactly when every element is a non-null object with a trimmable category. Record `i` is then the normalisation of element `i`, with the same length |
| Books.LoadBooksSpec | index.js:74-96 | Loading fails, always with the format error, exactly when the document is not an array or an element cannot be processed. Otherwise it keeps length and order, and every record is well formed with its element's id |
| Categories.LexLeTotal | index.js:262 | Any two strings are comparable in the sort order |
| Categories.LexLeTransitive | index.js:262 | The sort order is transitive |
| Categories.LexLeAntisymmetric | index.js:262 | Strings ordered both ways are equal |
| Categories.Distinct | index.js:253 | `[...new Set(xs)]` has no repeats and the same members as `xs` |
| Categories.Sort | index.js:262 | `sort()` returns a sorted permutation of its input |
| Categories.InsertSorted | index.js:262 | Inserting into a sorted list keeps it sorted |
| Categories.StrictlySortedUnique | index.js:253-262 | Two strictly ascending lists with the same members are equal |
| Categories.SortedCategoriesSpec | index.js:253-262 | The category list is strictly ascending and holds exactly the records' categories |
| Categories.SortedCategoriesDependOnlyOnSet | index.js:253-262 | Record order and repeated categories do not change the list |
| Categories.OptionsFor | index.js:262-269 | One option per category, with text and value both the category, then the "Comic"/`invalid-cat` option last |
| Categories.CategoryOptionsSpec | index.js:252-270 | The added options: one per category in sorted order, with distinct values and every record's category among them, then the sentinel |
| Filter.FilterByCategory | index.js:277-279 | The filter keeps exactly the records whose category equals the selection ignoring case, each as often as in the catalog, in catalog order |
| Filter.SelectBooksSpec | index.js:273-279 | The empty selection shows the whole catalog. Any other shows an order-preserving sub-list holding a record exactly when its category matches |
| Filter.SentinelMatchesNothingUnlessNamed | index.js:267-279 | The `invalid-cat` option shows nothing exactly when no category lower-cases to `invalid-cat` |
| Filter.HighlightedSpec | index.js:238-243 | A title is highlighted exactly when the trimmed, lower-cased term is non-empty and occurs in the lower-cased title |
| Filter.HighlightIgnoresCase | index.js:238-243 | The match ignores case on both sides and white space around the term |
| Filter.LowerTrimCommute | index.js:238 | Trimming and lower-casing commute |
| Render.Stars | index.js:201-224 | The rating cell: glyph `i` is filled exactly when `i < rating`, with `max(rating,0) + max(5-rating,0)` glyphs |
| Render.CreateRatingStars | index.js:201-224 | The two loops build exactly `Stars(rating)` |
| Render.StarsOfValidRating | index.js:201-224 | A rating in 0..5 gives five glyphs, the first `rating` filled and the rest empty |
| Render.RenderRowsSpec | index.js:124-166 | No records give one placeholder row. Otherwise there is one unhighlighted row per record, in order, carrying its id, title, category and a five-glyph rating |
| Render.HighlightRows | index.js:237-248 | The search pass keeps the number, order and kind of rows and changes nothing but highlight flags |
| Render.HighlightRowsFlags | index.js:237-248 | On book rows each flag becomes whether the term matches the row's title |
| Render.EmptyTermClearsAll | index.js:238-246 | A term that trims to nothing clears every highlight |
| Render.UnmatchedTermKeepsRows | index.js:237-248 | A term no title contains highlights nothing and removes no row |
| Render.ViewSpec | index.js:124-166 | A render shows the placeholder for no records. Otherwise row `i` is record `i`, highlighted exactly when its title matches the search box |
| Render.BookList.HandleSearch | index.js:237-248 | The `forEach` leaves the rows as `HighlightRows` of the old rows |
| Render.BookList.RenderBooks | index.js:124-166 | Clearing, building the fragment and re-running the search leave exactly `View(books, term)` |
| Render.BookList.DisplayError | index.js:408-426 | The table holds exactly one error row with the message |
| Cart.ValidQuantity | index.js:323-332 | The answer is accepted only as a `parseInt` value from 1 to 99, and every such value is accepted |
| Cart.ValidQuantityOfNumeral | index.js:323-332 | An answer starting with the numeral of `n` is accepted exactly when 1 <= n <= 99, and then as `n` |
| Cart.FindEntry | index.js:343 | `find` gives the first entry with the id, or none when no entry has it |
| Cart.TotalUpdate | index.js:343-345 | Changing one entry's quantity changes the total by the difference |
| Cart.QuantityOfUpdate | index.js:343-345 | Changing one entry changes the quantity held for each id accordingly |
| Cart.TotalAtLeastCount | index.js:357-360 | With positive quantities the badge is at least the number of entries |
| Cart.AddToSpec | index.js:343-352 | Adding `q` raises the total and the selected id's quantity by `q` and leaves every other id's quantity alone. It keeps ids distinct and quantities positive, and appends an entry exactly when the id is new |
| Cart.AddToKeepsEntries | index.js:343-352 | When the id is present, only that entry changes: it keeps its id, title and price and its quantity rises by `q`. Every other entry stays as it was at its position, and a new entry goes only at the end |
| Cart.SameIdMerges | index.js:343-345 | A second selection with the same id only adds to the first entry's quantity |
| Cart.MergedQuantityIsNotCapped | index.js:323-352 | Two accepted adds of 99 copies of one book leave 198 in the cart |
| Cart.ShoppingCart.constructor | index.js:7 | The cart starts empty with a zero badge |
| Cart.ShoppingCart.UpdateCartDisplay | index.js:357-360 | The `reduce` sets the badge to the sum of the quantities, leaving the entries alone |
| Cart.ShoppingCart.AddItem | index.js:315-355 | No selection, or an answer outside 1..99, changes nothing and reports which. Otherwise the cart becomes `AddTo(old cart)` and the badge rises by the quantity. Distinct ids, positive quantities and the badge sum are kept |
| Cart.ShoppingCart.Put | index.js:342-354 | The accepted add: the cart becomes `AddTo(old cart)`, the badge rises by the quantity, and distinct ids, positive quantities and the badge sum are kept |
| Cart.ShoppingCart.Reset | index.js:362-385 | An empty cart or a declined confirmation changes nothing and answers false. Otherwise the cart is emptied, the badge shows 0 and the answer is true |
| App.Shop.constructor | index.js:6-7 | The page starts with no records, only the first selector option, an empty table and an empty cart |
| App.Shop.PopulateCategories | index.js:252-270 | Every option but the first is removed, then the category options and the sentinel are appended |
| App.Shop.ClearExtraOptions | index.js:257-259 | The `remove(1)` loop leaves exactly the first option |
| App.Shop.AddCategoryOptions | index.js:262-269 | The `forEach` and the final `add` append one option per category, in the given order, then the sentinel |
| App.Shop.OnBooksLoaded | index.js:74-96 | A loadable document replaces the catalog, refills the selector and renders every record. Otherwise catalog and selector are kept and the format error is shown |
| App.Shop.OnLoadFailureAsWritten | index.js:98-101 | As written, a failed request changes nothing on the page |
| App.Shop.OnLoadFailure | index.js:98-101 | A failed request shows the connection error |
| App.ConnectionMessageNeverShownAsWritten | index.js:98-101 | As written, no response leads from the empty table to the connection message |
| App.TableAfterLoadSpec | index.js:72-103 | After loading, the table shows one error row exactly when loading fails, with the message for the cause. Otherwise it shows the render of the records |
| App.Shop.ApplyCategoryFilter | index.js:273-282 | The table shows `View` of the selected records with the current search term |
| App.Shop.ResetFilter | index.js:284-297 | The search box is cleared and the table shows every record unhighlighted |
| App.ViewWithEmptyTerm | index.js:284-297 | With an empty search box no rendered row is highlighted |
| App.Shop.Search | index.js:43-44 | Typing into the search box re-marks the rows by the new term and changes nothing else |
| App.Shop.AddCheckedRow | index.js:315-355 | With a checked row and a valid quantity, the row's id, title and price go to the cart by `AddTo`. With a checked row and an invalid quantity the outcome is `InvalidQuantity`. Without a checked row the outcome is `NoSelection`. Whenever nothing is added the cart is unchanged |
| App.SelectionOfView | index.js:335-340 | Checking row `i` of a render, under any search term, hands the cart record `i`'s id, title and price |
| App.ExampleLoadAndFilter | index.js:78-88 | Any document like the example (a "Sci-Fi" record rated 10 and a record with neither field) loads into two records with ratings 5 and 0 and categories "Sci-Fi" and "Uncategorized". Selecting "sci-fi" shows only the first |

## Left out

- The request itself (`getJsonObject`, index.js:388-405): XHR, status codes and `JSON.parse` are not modelled. Their outcome is the `Response` parameter, either a parsed `Document` or `Failed`.
- The start-up checks for page elements (index.js:9-23): the model assumes the elements exist.
- The markup of a row: the checkbox cell, `img` `src`/`alt`, class names, `colSpan` and the `$` in the price cell. `appendCell`, `createTextCell`, `createCheckbox`, `createCoverImage` and `createPriceCell` become fields of `Render.BookRow`.
- Single selection (index.js:300-313): the checkbox handler is not modelled. `App.Shop.AddCheckedRow` receives at most one checked row. The model keeps no checkbox state, so the unchecking of the row after a successful add (index.js:353) is not modelled either.
- `Cart.SelectionOf`: the price is the row's price value. The model does not replay `parseFloat` over the cell text without its `$`.
- Dialog texts and console output are not modelled: `alert`, the `confirm` message with its totals, and `console.*`. The answers are parameters and the refusals are `Cart.AddOutcome` values.
- Dark mode and `localStorage` (index.js:54-67, 429-443): not modelled, since no state of the catalog or cart depends on them.
- Numbers are integers. Fractional ratings and prices, `Infinity` and `-0` are outside the model.
- `Text.ParseNumber` (the model's `Number`) accepts only white space around an optional sign and decimal digits. So "4.0", "5.", "1e0", "0x1F", "0b1" and "0o7" are NaN in the model (rating 0), where JavaScript's `Number` gives 4, 5, 1, 31, 1 and 7 (ratings 4, 5, 1, 5, 1, 5).
- `Text.ParseInt` (the model's `parseInt`) reads decimal digits only. It reads "0x1A" as 0, so `Cart.ValidQuantity` refuses it, where JavaScript's `parseInt` reads 26 and the page accepts it.
- Field values that are booleans, objects or arrays are not modelled: a value is missing, a string or an integer.
- `toLowerCase` changes only ASCII letters. String order is by code point, which differs from JavaScript's UTF-16 order only for characters beyond U+FFFF.
- Page values the model fixes:
  - The first selector option ("All Categories", value `''`) comes from the page's markup.
  - The badge starts at 0.
  - The search box is reached through the window's named element access, and the model reads it as the field `searchText`.
- `App.Shop.ResetFilter`: the selector's value is not stored. `App.Shop.ApplyCategoryFilter` takes it as a parameter, so the reset to `''` is left out.

## Findings

| source | as written | input that shows it | evidently intended | confidence | as-written member | corrected member |
|---|---|---|---|---|---|---|
| index.js:98-101 | The error callback reads `xhr.status`, but `xhr` is local to `getJsonObject`, so the callback throws a ReferenceError before `displayError` runs | Any failed request: a status other than 200, or a body that is not JSON | The table shows "Fail, please check connection." | high; not executed | App.ConnectionMessageNeverShownAsWritten | App.TableAfterLoadSpec |
