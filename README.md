# tiemnhalac product page — a Dafny model of `app.js`

The page script fetches a product feed exported from a spreadsheet as comma-separated text. It does four things with it:

- It turns the feed into `Product` records: id, category, gender, size, Instagram post URL, status and notes.
- It keeps the records in the module-level variables `productsData`, `filteredProducts` and `currentFilters`.
- It shows the subset that matches the checked gender, category, size and status filters.
- It reads each post's short code out of its URL so the post can be embedded.

When the fetch fails, it substitutes a fixed sample catalogue of six records.

The model has five modules:

- `Options` — a generic `Option` type. It stands for JavaScript's `null`/`NaN` results.
- `JsString` — the JavaScript string primitives the script relies on:
  - `split` on one character, and its inverse `join`;
  - `trim`, with the ECMAScript whitespace set;
  - `parseInt`: leading whitespace, a sign, the `0x`/`0X` prefix, the longest digit run, and `NaN`;
  - `toLowerCase` on ASCII letters.
- `Feed` — the `Product` record and `parseCSV`:
  - a specification function `Parsed`;
  - the loop as the method `ParseCsv`, proved equal to `Parsed`;
  - lemmas on which lines become records, their order, their count, their cleanliness, header independence, and a write-then-parse round trip.
- `PostId` — `extractPostId`:
  - a leftmost search for the pattern `instagram\.com\/[^\/]+\/p\/([^\/\?]+)`;
  - the same search for the corrected pattern `instagram\.com\/(?:p|[^\/]+\/p)\/([^\/\?]+)`;
  - lemmas on what each one accepts (see Findings).
- `Listing`:
  - the filter predicate of `filterProducts` and the filtered list `Filtered`;
  - `getSampleData`;
  - a class `Page` holding the three page variables, whose methods are `loadProductsData`, `filterProducts`, `resetFilters` and the refresh button's handler.

The parser in app.js is the simple one, and the model follows it:

- Fields are split on every comma. Quoted fields are not recognised.
- Columns are taken by position. The header row is split but never consulted.
- Records are not filtered by URL.
- A record needs at least seven fields.
- The fallback id is the line's index in the whole text. That index includes the header line and any blank lines.

## Model

| member | source | states |
|---|---|---|
| JsString.SplitCount | app.js:54 | `split` on a separator yields exactly one more piece than the separator occurs in the text |
| JsString.SplitPiecesLackSeparator | app.js:61 | no piece produced by `split` contains the separator |
| JsString.JoinSplit | app.js:54 | joining the pieces of `split` with the separator restores the original text |
| JsString.SplitJoin | app.js:61 | splitting separator-free pieces joined by the separator gives back exactly those pieces (inverse direction of the round trip) |
| JsString.TrimSplitsOff | app.js:58 | `trim` returns a trimmed contiguous slice of its input and everything it cut off on either side is whitespace |
| JsString.TrimPadding | app.js:58 | a trimmed text surrounded by whitespace on both sides trims back to itself |
| JsString.CountTrim | app.js:58 | trimming never removes a non-whitespace character such as ',' or '\n' |
| JsString.ParseIntReadsDecimal | app.js:64 | `parseInt` of any integer's decimal spelling, followed by anything that is not a digit continuation, yields that integer |
| JsString.ParseIntSkipsWhitespace | app.js:64 | leading whitespace does not change what `parseInt` yields |
| JsString.ParseIntNaN | app.js:64 | every text without a decimal digit (empty, blank, a word, a lone sign such as "-" or "+x") parses to NaN |
| JsString.ParseIntHex | app.js:64 | `parseInt` honours the `0x` prefix: "0x1A" reads as 26 |
| JsString.ToLower | app.js:202 | lower-casing keeps the length and maps each character on its own through the ASCII case map |
| JsString.ToLowerIdempotent | app.js:202 | lower-casing twice equals lower-casing once and leaves no capital letter |
| Feed.RecordIdOfDecimal | app.js:64 | a first value holding an integer's decimal spelling gives that integer as the id, except 0, which falls back to the line index (`parseInt(...) \|\| i`) |
| Feed.RecordIdWithoutDigits | app.js:64 | a first value without any decimal digit is NaN and gives the line index as the id |
| Feed.RecordIdNonZero | app.js:64 | past the header line the id is never 0, because a 0 from `parseInt` is falsy and replaced by the index |
| Feed.ParseCsv | app.js:52-76 | the loop over the lines returns exactly the specification `Parsed(text)` |
| Feed.RecordOfKept | app.js:58-62 | a line yields a record if and only if it holds at least six commas, so blank and short lines are skipped |
| Feed.RecordOfClean | app.js:61-70 | every record read from a data line has trimmed, comma-free fields and a non-zero id |
| Feed.RecordOfRow | app.js:61-70 | a line written as seven or more clean comma-joined fields, with trailing whitespace, reads back as exactly those fields |
| Feed.ParsedInLineOrder | app.js:57-72 | record j comes from line o[j]; o is strictly increasing, never cites the header line, and contains every line that yields a record |
| Feed.ParsedCount | app.js:54-57 | there are never more records than line breaks in the text |
| Feed.ParsedHeaderOnly | app.js:54-57 | a text without a line break (header only) yields no records |
| Feed.HeaderIgnored | app.js:55 | replacing the header line by any other line leaves the result unchanged |
| Feed.CollectSnoc | app.js:57-72 | appending one line to the feed appends exactly that line's record (if any) to the result and keeps the earlier records |
| Feed.ParsedClean | app.js:61-70 | every parsed record is clean |
| Feed.FeedRoundTrip | app.js:52-76 | a feed written as a header plus well-formed rows has one line break per row and parses back to the products those rows describe, with ids from the first column or the row's line number |
| PostId.Search | app.js:80 | `String.match` semantics: the result is the match at the leftmost position where the pattern matches, and no match means no position matches |
| PostId.ExtractPostId | app.js:78-82 | an empty URL gives null, and any id returned is non-empty and free of '/' and '?' |
| PostId.UserFormExact | app.js:80 | at the start of `instagram.com/<seg>/p/<id>` followed by '/', '?' or the end, the pattern captures exactly `<id>` |
| PostId.ExtractPostIdFinds | app.js:80-81 | every URL containing `instagram.com/<seg>/p/<id>` yields an id, and yields `<id>` itself when no match starts earlier |
| PostId.ExtractPostIdSound | app.js:80-81 | every id returned comes from a `instagram.com/<seg>/p/<id>` part of the URL with a non-empty `/`-free segment (converse of ExtractPostIdFinds) |
| PostId.AsWrittenMissesDirectLink | app.js:80 | a direct post link `instagram.com/p/<id>` (with or without a trailing '/') yields null |
| PostId.ExtractPostIdCorrected | app.js:80 | the corrected extraction: an empty URL gives null and any id returned is non-empty and free of '/' and '?' |
| PostId.CorrectedReadsDirectLink | app.js:80 | the corrected pattern reads `<id>` out of a direct post link |
| PostId.CorrectedFindsWhatAsWrittenFinds | app.js:80 | whenever the code as written finds an id, the corrected one finds one too |
| PostId.CorrectedAgreesOffDirectLinks | app.js:80 | on URLs with no direct-link match the corrected extraction returns the same result as the code as written |
| Listing.Filtered | app.js:190-211 | filtering never lengthens the list |
| Listing.FilteredInOrder | app.js:190-211 | the filtered list is the products at the increasing positions that match, and a position is kept if and only if its product matches |
| Listing.FilteredMembers | app.js:190-211 | a product is in the filtered list if and only if it is in the input and passes every active filter group |
| Listing.FilteredAppend | app.js:190-211 | filtering a concatenation is the concatenation of the filtered parts |
| Listing.FilteredInactive | app.js:190-211 | with no group active, nothing is filtered out |
| Listing.FilteredIdempotent | app.js:190-211 | filtering twice with the same selection equals filtering once |
| Listing.AllOverrides | app.js:191-208 | in each of the four groups (gender, category, size, status), a checked "all" makes that group pass every product, exactly as if nothing were checked in it |
| Listing.GenderSelection | app.js:191-194 | selecting "male" keeps exactly the MALE products; selecting "female" keeps all others |
| Listing.CategorySelection | app.js:196-199 | selecting "ao" keeps exactly the ÁO products; selecting "quan" keeps all others |
| Listing.StatusSelection | app.js:205-208 | selecting "available" keeps exactly the AVAILABLE products; selecting "sold" keeps all others |
| Listing.BothValuesChecked | app.js:190-211 | checking both values of the gender and of the status group makes those groups pass everything |
| Listing.SizeIgnoresCase | app.js:201-203 | two products differing only in the case of their size pass the same filters |
| Listing.CapitalSizeMatchesNothing | app.js:201-203 | a size filter value holding a capital letter keeps no product at all |
| Listing.SampleData | app.js:296-305 | the sample catalogue has six records with ids 1 to 6 |
| Listing.SampleFemale | app.js:296-305 | filtering the sample catalogue by "female" keeps records 2, 4 and 6, in that order |
| Listing.PostLinkIds | app.js:298-303 | for a link of the sample records' shape the code as written finds no id while the corrected pattern finds the link's own id |
| Listing.SampleLinks | app.js:296-305 | no sample record's URL yields an id under the code as written, and each yields its own short code under the corrected pattern |
| Listing.Page.constructor | app.js:5-9 | the page starts with no products, nothing shown and empty filters |
| Listing.Page.LoadProductsData | app.js:33-50 | after loading, the products are the parsed feed, or the sample catalogue when the fetch failed, and all of them are shown; the filter record is untouched |
| Listing.Page.FilterProducts | app.js:177-215 | the selection is recorded and the shown list becomes the loaded products filtered by it; the products are untouched |
| Listing.Page.ShownIsSubsequence | app.js:190-211 | in every reachable page state the list on screen is an order-preserving subsequence of the loaded products |
| Listing.Page.ResetFilters | app.js:222-229 | the shown list becomes the full product list; products and the recorded selection are untouched |
| Listing.Page.Refresh | app.js:283-292 | after a refresh the products are the newly loaded ones and the shown list is them filtered by the current selection |
| Listing.FallbackThenReset | app.js:44-49 | after a failed load, any filtering followed by a reset shows the six sample records |

## Left out

- `init`, `hideSkeletonLoader`, `renderProducts`, `createProductCard`, `updateProductCount`, `showNotification`, `setupEventListeners` (checkbox changes, the grid/list view buttons) and the refresh button's timer are presentation code with no effect on the modelled state.
- `getSelectedValues` reads checked checkboxes from the DOM. The selected values are inputs of `FilterProducts` instead.
- `fetch`, `await` and `response.ok` are network I/O. The fetch outcome is the parameter `fetched`: the text, or `None` for any failure. The console messages are left out.
- `resetFilters` also re-checks the "all" checkboxes. That is DOM state. The model keeps the source's behaviour: `currentFilters` is not cleared.
- JsString.ParseInt: yields an unbounded integer. JavaScript's double-precision rounding of very long digit runs and `Infinity` are not modelled.
- JsString.ToLower: maps only ASCII letters. Other Unicode case changes, such as `Á` to `á`, are not modelled, so a size value with a non-ASCII capital falls outside SizeIgnoresCase's range.
- The header computation at app.js:55 has no effect. It is modelled as nothing, and HeaderIgnored shows the header line does not matter.
- The `?.` and `|| ''` guards at app.js:65-70 cannot fire once seven fields exist. They are modelled as plain `trim`.
- PostId models the one pattern of app.js:80 and its corrected form. It is not a general regular-expression engine.
- The `!url` test at app.js:79 is modelled for the empty string only. `null` and `undefined` cannot occur, because every URL is a string.
- `createProductCard`, which uses `extractPostId` to pick an embed, is rendering and is not modelled. So the corrected extraction is proved about but feeds nothing else in the model.

## Findings

| source | as written | input that shows it | evidently intended | confidence | as-written member | corrected member |
|---|---|---|---|---|---|---|
| app.js:80 | the pattern `instagram\.com\/[^\/]+\/p\/([^\/\?]+)` needs a path segment between the host and `/p/`, so direct post links never match | `https://www.instagram.com/p/DUVF5iiEmtI/` (every sample record's URL) gives `null` | also accept `instagram.com/p/<id>`, e.g. `instagram\.com\/(?:p\|[^\/]+\/p)\/([^\/\?]+)`, which reads `DUVF5iiEmtI` | not executed | PostId.AsWrittenMissesDirectLink | PostId.CorrectedReadsDirectLink |
