# Quote store

A model of the quote store behind the "dynamic quote generator" page,
`dom-manipulation/script.js`. The page keeps a global, ordered array of
`{ text, category }` records. It loads the array from the `quotes` item of
`localStorage`. When that item is missing it starts from six seed records.
Every change is written back with `saveQuotes`. The page also:

- derives the category list with `[...new Set(quotes.map(q => q.category))]`;
- filters by the category stored under `selectedCategory`;
- shows a random quote of the filtered list, or "No quotes found.";
- takes new quotes from a form, after trimming their fields;
- merges imported JSON files by appending every record.

The model has five files:

- `wrappers.dfy`: the `Option` type, for a storage item that is missing.
- `jsstring.dfy`: `String.prototype.trim`, as section 22.1.3.32 of ECMA-262 defines it. It removes WhiteSpace and LineTerminator code points from both ends.
- `sequences.dfy`: first occurrences, and `Distinct`. `Distinct` is the insertion order a JavaScript `Set` gives when built from a sequence and spread back into an array. It also holds order-preserving subsequences.
- `quotes.dfy`: the `Quote` record, the seed, the start-up choice of list, the category list, the category filter, the preference default, and the choice of the quote to display.
- `store.dfy`: class `QuoteStore`. Its field `quotes` is the global array. Its ghost field `persisted` stands for the stored `quotes` item. Its field `selectedCategory` is the stored preference. Its methods are load, save, add, import-merge, show and filter. It also states the export/import round trip.

Start-up, add, import and filter change state in the source. They are methods that update the class's fields. The derivations the source computes from expressions are functions: trimming, the category list, filtering and picking. Their properties are proved as lemmas.

In four places the code does less than one might expect of a quote store, and the model follows the code:

- One might expect the seed to be saved at start-up. It is not: only a later add or import saves it. `QuoteStore.Valid` therefore allows storage to be absent while the list is still the seed.
- One might expect a preference naming a category that no quote has to fall back to "all". It does not. The filter returns nothing, and the page shows "No quotes found.".
- One might expect import to reject a malformed file. It does no shape check and has no error path. Every parsed record is appended, so imported records need not be trimmed or non-empty. `WellFormed` is promised only for records created by `AddQuote`.
- One might expect a stored list that fails to parse to be replaced by the seed. It is not. `JSON.parse` throws, and nothing in the file handles it.

## Model

| member | source | states |
|---|---|---|
| `JsString.Trim` | dom-manipulation/script.js:40-41 | The result has no white space at either end, and it is the input with only white space cut from each end. |
| `JsString.TrimUnique` | dom-manipulation/script.js:40-41 | Any strip of the input with only white space cut from its ends, and itself trimmed, equals `Trim` of the input. The two properties of `Trim` pin its result down. |
| `JsString.TrimIdempotent` | dom-manipulation/script.js:40-41 | Trimming an already trimmed string changes nothing. |
| `JsString.TrimEmptyIff` | dom-manipulation/script.js:40-43 | `trim()` gives `""` exactly when the field holds only white space. This is the rejection test of `addQuote`. |
| `Sequences.FirstIndex` | dom-manipulation/script.js:73 | The index returned holds the value, and no earlier index does. |
| `Sequences.DistinctSpec` | dom-manipulation/script.js:73 | Spreading a `Set` built from a sequence gives no duplicates, contains exactly the sequence's values in both directions, and orders them by first occurrence. |
| `Sequences.DistinctExtends` | dom-manipulation/script.js:73 | Appending to a sequence keeps its distinct values, in the same order, as a prefix of the longer sequence's distinct values. |
| `Sequences.SubsequenceMultiset` | dom-manipulation/script.js:111 | A subsequence holds no value more often than the sequence does. |
| `Quotes.InitialQuotes` | dom-manipulation/script.js:4-12 | A stored list is used as it is, even an empty one. A missing item gives the six seed records. |
| `Quotes.CategoryNamesAt` | dom-manipulation/script.js:73 | `quotes.map(q => q.category)` has one entry per quote, and entry i is quote i's category. |
| `Quotes.CategoryNamesAppend` | dom-manipulation/script.js:73 | Mapping to categories distributes over appending. |
| `Quotes.CategoriesSpec` | dom-manipulation/script.js:73 | The category list has no duplicates. Every entry is some quote's category, and every quote's category is an entry. Entries are ordered by the first quote carrying them. |
| `Quotes.CategoriesGrow` | dom-manipulation/script.js:49-55 | After quotes are appended, the old category list is a prefix of the new one. |
| `Quotes.CategoriesExample` | dom-manipulation/script.js:73 | Categories A, B, A give the list ["A", "B"]. |
| `Quotes.FilterCategorySpec` | dom-manipulation/script.js:111 | The filter is a subsequence holding only quotes of the category. It keeps every such quote as often as the list has it. It is empty exactly when no quote has the category. |
| `Quotes.FilterCategoryUnique` | dom-manipulation/script.js:111 | Only one sequence is an order-preserving subsequence holding exactly the quotes of a category, and that sequence is the filter's result. |
| `Quotes.FilterCategoryAppend` | dom-manipulation/script.js:111 | Filtering the concatenation of two lists yields the concatenation of their filtered results. |
| `Quotes.SelectedCategory` | dom-manipulation/script.js:107 | The selection is "all" exactly when the preference is missing, empty or "all". Otherwise it is the stored non-empty preference. |
| `Quotes.FilteredSpec` | dom-manipulation/script.js:106-112 | A missing, empty or "all" preference gives the whole list. Any other preference gives exactly that category's quotes, in order, and nothing when no quote has it. |
| `Quotes.AddedQuoteListed` | dom-manipulation/script.js:49 | A quote just appended appears in the filtered list when its own category is selected. |
| `Quotes.PickQuote` | dom-manipulation/script.js:22-30 | "No quotes found." is the outcome exactly when there are no candidates. Otherwise the outcome is the text at the drawn index. The shown text is always the message or some candidate's text. |
| `Sequences.Distinct` | dom-manipulation/script.js:73 | The values of a sequence in the insertion order of a `Set` built from it. Specified by `DistinctSpec` and `DistinctExtends`. |
| `Quotes.CategoryNames` | dom-manipulation/script.js:73 | `quotes.map(q => q.category)`. Specified by `CategoryNamesAt` and `CategoryNamesAppend`. |
| `Quotes.Categories` | dom-manipulation/script.js:73 | `[...new Set(quotes.map(q => q.category))]`. Specified by `CategoriesSpec` and `CategoriesGrow`. |
| `Quotes.FilterCategory` | dom-manipulation/script.js:111 | `quotes.filter(q => q.category === c)`. Specified by `FilterCategorySpec`, `FilterCategoryUnique` and `FilterCategoryAppend`. |
| `Quotes.Filtered` | dom-manipulation/script.js:106-112 | `getFilteredQuotes` on the stored preference. Specified by `FilteredSpec` and `AddedQuoteListed`. |
| `Store.QuoteStore.Valid` | dom-manipulation/script.js:4-18 | Storage holds exactly the list, or storage is still empty and the list is the untouched seed. The constructor establishes it, and `AddQuote` and `ImportQuotes` preserve it. |
| `Store.QuoteStore.ExportedQuotes` | dom-manipulation/script.js:117-118 | The records export serialises: the whole list. Specified by `ExportImportRoundTrip`. |
| `Store.QuoteStore.constructor` | dom-manipulation/script.js:4-12 | The list is chosen as `InitialQuotes` chooses it. Storage and the preference are left as found, so the seed is not saved. |
| `Store.QuoteStore.SaveQuotes` | dom-manipulation/script.js:16-18 | The stored copy becomes the whole current list. |
| `Store.QuoteStore.AddQuote` | dom-manipulation/script.js:36-52 | The add is refused exactly when a field is white space only, and then list and storage are unchanged. Otherwise the trimmed record is appended and storage equals the new list. The record is well formed and appears under its own category. The category list only grows at its end. |
| `Store.QuoteStore.ImportQuotes` | dom-manipulation/script.js:136-142 | Every imported record is appended, in order and without deduplication. The length grows by the imported count and the old prefix is untouched. Storage equals the new list, and the category list only grows at its end. |
| `Store.QuoteStore.ShowRandomQuote` | dom-manipulation/script.js:22-30 | The outcome is `PickQuote` on the list filtered by the stored preference. It is "No quotes found." exactly when that list is empty. |
| `Store.QuoteStore.FilterQuotes` | dom-manipulation/script.js:93-101 | The chosen category is saved as the preference. The outcome is then a pick from that category's filtered list. |
| `Store.ExportImportRoundTrip` | dom-manipulation/script.js:117-118 | Exporting a list and importing the file into a store holding an empty list gives back the same records in the same order. |

## Left out

- Page elements, `innerText`, `alert`, clearing the inputs, and building the dropdown's `<option>`s are presentation and are not modelled. Neither is restoring the dropdown's value (script.js lines 25, 30, 37-38, 44, 55-60, 66-70, 74-88).
- The `window.onload` registration of event handlers (lines 152-167) is not modelled. It is browser event wiring.
- `Math.random()` and `Math.floor` are not modelled, because they are floating point and nondeterministic (line 29). The drawn index is a parameter, required to lie in `[0, length)` when the list is not empty.
- `JSON.parse` and `JSON.stringify`, `Blob`, object URLs, the download anchor and `FileReader` are library I/O and are not modelled (lines 4, 17, 118-127, 133-147). Import takes the already parsed records; export is the list itself (`QuoteStore.ExportedQuotes`).
- Parse failures are left out. They throw before anything is appended (lines 4 and 136).
- Imported values that are not iterable (an object, a number, `null`) are left out. They throw at the spread on line 139, before anything is appended.
- Imported elements that are not `{ text, category }` records are left out only because the model's `Quote` type cannot represent them. In the source they are appended at line 139 and saved at line 142 without any error. Examples are `[{"quote": "x"}]`, `[1]`, and the characters of a JSON string such as `"abc"`. Line 73 then lists an `undefined` category for them. A `null` element throws only at line 73, after it has already been saved.
- `localStorage` itself is not modelled. It appears only as the ghost copy `persisted` and the optional preference.
- SaveQuotes: writes are assumed never to fail. In the source, `localStorage.setItem` can throw, for example when the storage quota is exceeded, and nothing catches it. The list has then already been extended in place (lines 49 and 139) while storage still holds the old list, and `populateCategories` and the alert are skipped. The model's `persisted == Some(quotes)` after `AddQuote` and `ImportQuotes`, and `Valid()`, hold only under this assumption.
- Strings are modelled as sequences of code points, not UTF-16 code units. Every white space character `trim` removes is a single code unit, so the two agree for `trim`.
- The six seed records are not proved well formed. The model keeps their exact text, but the verifier cannot index literals that long.
- A category literally named "all" cannot be selected on its own: `getFilteredQuotes` treats it as the whole list. The model keeps this, as `SelectedCategory` and `FilteredSpec` state.
