# Quote store model

This project models the in-memory quote store of the "dynamic quote
generator" page (`dom-manipulation/script.js`). The store is an ordered
list of `{ text, category }` records. The page changes it in three ways:

- the add-quote form appends one trimmed, validated quote;
- the JSON importer appends a parsed array verbatim;
- the periodic server sync appends the server quotes whose text the list
  does not hold yet.

The page reads it in four ways: it derives the category filter's options
(line 76), it draws a quote from the whole store (`showRandomQuote`, lines
21-27), it draws a quote from the pool the selected category admits
(lines 93-103), and the server sync looks up whether a text is already
held (line 168).

Separately, the fetched server payload is shaped into quotes (lines
152-155). That is a pure function of the payload and does not touch the
store.

Layout, one module per component:

- `text.dfy` (`Text`): `String.prototype.trim` over the ECMAScript
  white-space and line-terminator code points.
- `quotes.dfy` (`Quotes`): the `Quote` record, the five seed quotes, and
  lookup by text. Text is the only identity a quote has.
- `categories.dfy` (`CategoryIndex`): `["all", ...new Set(categories)]`.
  A `Set` iterates in insertion order, so `Distinct` keeps first-seen order.
- `selection.dfy` (`Selection`): the filter pool and the displayed pick.
  The random index is a parameter chosen by the caller.
- `server_sync.dfy` (`ServerSync`): payload shaping, and the sync merge as
  a function `Merge` over values, with the reference policy `Admitted`
  ("incoming quotes whose text is neither stored nor earlier in the batch").
- `store.dfy` (`Store`): the class `QuoteStore`. Its field `quotes` is the
  module-level array. The ghost field `saved` is the `quotes` slot of local
  storage (`None` = absent). Its methods follow the source's handlers, and
  `HandleServerSync` keeps the source's loop.

Line 5 calls `JSON.parse` without a `try`, so malformed stored JSON
throws; the constructor does not model that path (see Left out). It takes
either an absent slot (`None`), which gives the seed list, or a parsed list.

## Model

| member | source | states |
|---|---|---|
| `Store.QuoteStore.constructor` | dom-manipulation/script.js:5-11 | the store starts with the stored list when the slot holds one (even an empty one), else with the seed list; nothing is saved at load |
| `Store.QuoteStore.SaveQuotes` | dom-manipulation/script.js:71-73 | the storage slot holds the current list afterwards |
| `Store.QuoteStore.AddQuote` | dom-manipulation/script.js:51-56 | a quote is added iff both inputs have a non-white-space character; it is then exactly one quote appended at the end, holding the trimmed text and category, and the list is saved; otherwise the list and the slot are unchanged |
| `Store.QuoteStore.ImportQuotes` | dom-manipulation/script.js:130-132 | every imported entry is appended verbatim in order, with no dedup; the length becomes old plus imported; the list is saved |
| `Store.QuoteStore.HandleServerSync` | dom-manipulation/script.js:163-180 | the loop leaves the list equal to `Merge(old list, batch)`; the old list is a prefix; growth is at most the batch size; every server text is present afterwards; the flag is true iff the list grew, iff some server text was absent before; the list is saved only when the flag is true |
| `Store.QuoteStore.FetchServerQuotes` | dom-manipulation/script.js:146-161 | a failed fetch or parse changes nothing; otherwise the shaped payload is merged as `HandleServerSync` does; the flag is true iff the list grew, and the list is saved only then |
| `Store.SyncTwice` | dom-manipulation/script.js:164-175 | running the sync a second time with the same payload leaves the list as after the first run, reports no change, and saves nothing beyond what the first run saved |
| `Text.ContentStart` | dom-manipulation/script.js:51-52 | the position of the first non-space character from a start position on, or the end: everything skipped is white space |
| `Text.ContentEnd` | dom-manipulation/script.js:51-52 | the position just after the last non-space character before an end position, or 0: everything skipped is white space |
| `Text.Trim` | dom-manipulation/script.js:51-52 | the result is a contiguous slice of the input with only white space outside it; it neither starts nor ends with white space; it is empty iff the input is all white space |
| `Text.TrimIdempotent` | dom-manipulation/script.js:51-52 | trimming twice is trimming once |
| `Quotes.DefaultQuotes` | dom-manipulation/script.js:5-11 | the seed list has five quotes with pairwise different texts and pairwise different categories |
| `Quotes.HasTextAppend` | dom-manipulation/script.js:168 | a text occurs in a concatenation iff it occurs in one of the parts |
| `CategoryIndex.Distinct` | dom-manipulation/script.js:76 | the result holds exactly the input's elements, each once, and is no longer than the input |
| `CategoryIndex.Categories` | dom-manipulation/script.js:76 | the index starts with "all"; after it come exactly the categories of the store's quotes, with no repeats, at most one per quote |
| `CategoryIndex.DistinctFirstSeen` | dom-manipulation/script.js:76 | first-seen order: if one element is listed before another, every occurrence of the later one in the input has an occurrence of the earlier one before it |
| `CategoryIndex.CategoriesFirstSeen` | dom-manipulation/script.js:76 | the same first-seen order for the category index over the store's quotes |
| `CategoryIndex.CategoriesRepeatIff` | dom-manipulation/script.js:76 | the index has a repeated entry iff some quote's category is literally "all" |
| `CategoryIndex.DistinctAppendSeen` | dom-manipulation/script.js:76 | appending only already-seen values leaves the distinct list unchanged |
| `CategoryIndex.CategoriesAfterImport` | dom-manipulation/script.js:76 | importing quotes whose categories are already present (such as the store's own export) leaves the category index unchanged |
| `CategoryIndex.DistinctAppendNew` | dom-manipulation/script.js:76 | a value not seen before is listed last |
| `CategoryIndex.DistinctNoRepeats` | dom-manipulation/script.js:76 | a list without repeats is its own distinct list |
| `CategoryIndex.DefaultCategoryIndex` | dom-manipulation/script.js:76 | on the seed list the index is exactly `["all","Motivation","Perseverance","Productivity","Inspiration","Determination"]` |
| `Selection.FilterByCategory` | dom-manipulation/script.js:96 | every kept quote is from the store and has the category; every quote of the store with the category is kept |
| `Selection.FilterByCategoryCounts` | dom-manipulation/script.js:96 | each quote of the category is kept as many times as the store holds it, and no other quote is kept |
| `Selection.FilterByCategoryNone` | dom-manipulation/script.js:96 | nothing is kept when no quote has the category |
| `Selection.FilterByCategoryAppend` | dom-manipulation/script.js:96 | the filter keeps store order: filtering a concatenation is the concatenation of the filtered parts |
| `Selection.Pool` | dom-manipulation/script.js:93-97 | the pool is the whole store for "all", else the category filter of the store (its order-preserving subsequence of the quotes with that category) |
| `Selection.PoolEmptyIff` | dom-manipulation/script.js:93-100 | the pool is empty iff the store is empty (for "all") or no quote has the selected category |
| `Selection.FilterPick` | dom-manipulation/script.js:99-103 | nothing is shown iff the pool is empty; a shown quote is from the store and, for a filter other than "all", has the selected category |
| `Selection.RandomPick` | dom-manipulation/script.js:21-27 | nothing is shown iff the store is empty; a shown quote is from the store |
| `Selection.RandomPickIsAllPool` | dom-manipulation/script.js:21-27 | showing a random quote is the same as filtering by "all" |
| `Selection.DefaultMotivationPick` | dom-manipulation/script.js:93-103 | on the seed list the "Motivation" filter always shows the first seed quote |
| `ServerSync.ShapeFrom` | dom-manipulation/script.js:152-155 | one quote per item; quote `k` has the `k`-th title and the category at position `(index + k) % 4` |
| `ServerSync.ShapePayload` | dom-manipulation/script.js:152-155 | min(5, length of data) quotes; quote `k` has text `data[k].title` and category `["Motivation","Life","Inspiration","Productivity"][k % 4]` |
| `ServerSync.ShapePayloadCategories` | dom-manipulation/script.js:152-155 | every shaped category is a server category; the fifth quote repeats the first one's category; items after the fifth do not matter |
| `ServerSync.Merge` | dom-manipulation/script.js:167-173 | the merge only appends: the old list is a prefix, and the list grows by at most the number of incoming quotes |
| `ServerSync.Admitted` | dom-manipulation/script.js:167-171 | the reference policy admits at most as many quotes as come in |
| `ServerSync.MergeTexts` | dom-manipulation/script.js:167-171 | the texts after the merge are exactly the stored texts and the incoming texts |
| `ServerSync.MergeAppendsAdmitted` | dom-manipulation/script.js:167-171 | the merge is the old list followed by exactly the admitted quotes: incoming quotes whose text is neither stored nor earlier in the batch, in batch order |
| `ServerSync.MergeCoversIncoming` | dom-manipulation/script.js:167-171 | after the merge every incoming quote's text is in the list |
| `ServerSync.MergeAppendsNewTextsOnly` | dom-manipulation/script.js:167-171 | every appended quote's text differs from the text of every quote before it, so no text is added twice, even within one batch |
| `ServerSync.MergeKeepsTextsDistinct` | dom-manipulation/script.js:167-171 | a list without repeated texts keeps that property through the merge |
| `ServerSync.MergeKnownTexts` | dom-manipulation/script.js:167-173 | when every incoming text is already stored the merge changes nothing |
| `ServerSync.MergeGrowsIff` | dom-manipulation/script.js:164-175 | the list is unchanged iff every incoming text was stored, and it grows iff some incoming text was absent |
| `ServerSync.MergeIdempotent` | dom-manipulation/script.js:164-175 | merging the same batch twice is merging it once |

## Left out

- Page rendering, the add-quote form's markup, the option labels with the first letter capitalised, `alert` messages and the sync notification banner with its timeout. These are presentation only. `FilterPick` and `RandomPick` return the quote that would be rendered, or `None` for the empty-state message.
- `Math.random`/`Math.floor` index selection. It uses floating point, so the index is a caller-supplied `choice` within the pool.
- The persisted selected category (`selectedCategory`), which `populateCategories` reads and `filterQuotes` writes, and the way the select element treats a stored value that is no longer an option. This is browser state, so `FilterPick` takes the selected category as a parameter.
- `JSON.parse`/`JSON.stringify`, the export via `Blob` and an object URL, and `FileReader`. These are foreign serialisation and file I/O. `ImportQuotes` receives the already-parsed entries; a parse failure throws before anything is pushed, so it leaves the store unchanged. Entries that are not quote-shaped are not modelled.
- Store.QuoteStore.constructor: does not model a stored value that throws on parse (line 5 has no `try`); nor stored JSON `null`, `false`, `0` or `""`, which are falsy and also select the seed list; nor truthy stored JSON that is not an array (such as `{}` or `"x"`), which line 5 keeps as the list and on which later `push` calls fail.
- Strings are Dafny `string`, a sequence of Unicode scalar values, while JavaScript strings are UTF-16 code units. A lone surrogate (such as `"\uD800"` in imported or server JSON) cannot be represented. On well-formed text `trim` and `===` agree with the model, because every white-space code point lies in the Basic Multilingual Plane.
- `fetch`, `response.json`, the `try`/`catch` logging, `setInterval` and the `DOMContentLoaded` wiring. These are network I/O and timer-driven scheduling. `FetchServerQuotes` receives the settled response as an `Option`, and overlapping sync runs are not modelled.
- Local storage beyond the `quotes` slot. That slot is the ghost field `saved`; quota failures are not modelled.
- ServerSync.ShapePayload: a payload item without a `title` (which would give an `undefined` text) is not modelled; every item carries a title string.
