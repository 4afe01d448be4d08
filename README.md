# Currency rates scraper, modelled in Dafny

The repository scrapes exchange rates from a currency-converter web page.
`getAllCurrencyRates` walks every ordered pair of different codes from the
fixed list `COMMON_CURRENCIES` (40 three-letter codes). For each pair it
loads the converter page, reads the text of the result element, and pulls
the rate out of that text with the regular expression
`/1.+?=\s*([\d,.]+)/`, dropping thousands separators. Each rate it finds is
stored under the key `"<BASE> / <QUOTE>"`. The dictionary is written to
`currency-rates.json` and returned.

The model has six modules:

- `Wrappers` (`wrappers.dfy`): the `Option` type.
- `Currencies` (`currencies.dfy`): the code list, the `Currency` type and the key format, from `src/types.ts`.
  - Proved: the list has 40 entries, each is three upper-case letters, and they are pairwise distinct.
  - Proved: the key function is injective and `SplitKey` inverts it.
- `RateText` (`rate_text.dfy`): the text-parsing step of `extractRateFromPage`.
  - The regular expression is modelled with JavaScript's backtracking semantics: leftmost start, a lazy `.+?`, greedy `\s*` and a greedy group.
  - Find is proved to return the match that JavaScript's matcher picks, stated against a declarative description of every possible match.
  - It is also proved to return nothing exactly when no match exists.
  - Comma stripping is proved to leave text made only of digits and dots. As written that text can be empty or all dots, which `parseFloat` reads as NaN. Only the corrected extraction `RateText` is proved to leave non-empty text that reads as a number.
- `PairUniverse` (`pair_universe.dfy`): the order in which the two nested loops visit pairs, as list positions.
  - Proved: the visits are strictly increasing in outer/inner order.
  - Proved: a pair is visited exactly when its two codes differ.
  - Proved: with distinct codes there are N·(N−1) visits.
- `Batch` (`batch.dfy`): the loops of `getAllCurrencyRates` as imperative methods that fill a `map` in place.
  - They are proved equal to `Run`, which folds one step per visit.
  - The browser is a parameter, `Navigator`, that says what loading the page for a pair gave.
  - The loops see the browser through a `Fetch`: the navigation followed by `extractRateFromPage`. `PageFetch` builds it from a `Navigator`.
  - `Run` passes over a position outside the list, which keeps it total. The loops never make such a visit.
  - `PageFetch`, `BatchRun` and `GetAllCurrencyRates` use the extraction as written. `CorrectedPageFetch` and `CorrectedBatchRun` use the corrected one.
- `BatchProperties` (`batch_properties.dfy`): what the returned dictionary holds. Each property is proved for any list of distinct codes and any fetch, then for the browser's fetch, then for `COMMON_CURRENCIES`.
  - An entry exactly for each visited pair whose extraction succeeded, with that rate.
  - No `X / X` key, and no key ever overwritten.
  - At most 1560 = 40·39 entries, and exactly 1560 when every extraction succeeds.
  - Every value is comma-free digits and dots. As written a value can be text that `parseFloat` reads as NaN, such as `"..."`. With the corrected extraction every value reads as a number.
  - A rejected run stopped at the first pair whose navigation failed.

`page.goto` inside the loop (src/index.ts:61-64) is not guarded by any `try` that catches. A navigation error therefore leaves both loops at once: the `finally` closes the browser, the file is not written and the promise rejects. The model follows the code, with `PageLoad.NavigationError` and `BatchOutcome.Aborted`. So one failed `page.goto` loses every rate already fetched in the run.

The rate kept for a pair is the comma-free text that `parseFloat` reads, not a floating-point number. `RateText.ParsesAsNumber` states when `parseFloat` of such text is a number rather than NaN. A text that reads as NaN is stored as it is, just as the code stores NaN at line 68.

## Model

| member | source | states |
|---|---|---|
| Currencies.CommonCurrenciesWellFormed | src/types.ts:16-57 | `COMMON_CURRENCIES` has exactly 40 entries, each three upper-case ASCII letters, pairwise distinct |
| Currencies.CodeIndexInverse | src/types.ts:16-57 | the position table is a left inverse of indexing the list, so each code occurs at one position only |
| Currencies.CodeIndexFinds | src/types.ts:59 | every `Currency` occurs in the list at the position the table gives |
| Currencies.PairKey | src/types.ts:13 | a key is the base, then `" / "`, then the quote, and its length is the sum of the three |
| Currencies.SplitKey | src/types.ts:13 | reading a key back yields two three-letter codes or nothing |
| Currencies.SplitPairKey | src/types.ts:13 | reading back the key of two codes gives exactly those two codes |
| Currencies.PairKeyOfSplit | src/types.ts:13 | a key that reads back is the key of the two codes it reads as |
| Currencies.PairKeyInjective | src/types.ts:13 | with bases of equal length, equal keys come from equal pairs |
| Currencies.SelfKeyOnlyFromSamePair | src/index.ts:56-58 | the key of a code pair equals `"X / X"` exactly when both codes are X |
| RateText.SpacesEnd | src/index.ts:18 | the greedy `\s*` ends within the text, no earlier than it starts |
| RateText.SpacesEndSpans | src/index.ts:18 | `\s*` consumes only JavaScript white space and stops before the first other character, so it is the longest such run |
| RateText.RateCharsEnd | src/index.ts:18 | the greedy group ends within the text, no earlier than it starts |
| RateText.RateCharsEndSpans | src/index.ts:18 | the group `[\d,.]+` consumes only digits, commas and dots and stops before the first other character |
| RateText.LazyScan | src/index.ts:18 | the position the lazy `.+?` stops at lies within the text |
| RateText.LazyScanFirst | src/index.ts:18 | the lazy `.+?` stops at the first `=` followed by optional white space and a rate character, with no line terminator crossed; it gives up only when no such `=` is reachable |
| RateText.SearchFindsFirst | src/index.ts:18 | the search reports the first start position at which the pattern matches, with its `=` and greedy group bounds, and nothing exactly when no start matches |
| RateText.MatchAtComplete | src/index.ts:18 | any match of the pattern at a start is found there, with an `=` no later and the same group start |
| RateText.SpacesEndUnique | src/index.ts:18 | a white-space run followed by another character ends there |
| RateText.RateCharsEndBound | src/index.ts:18 | any run of rate characters ends no later than the greedy group |
| RateText.ReportedIsMatch | src/index.ts:18 | a match put together from where the lazy scan stops is a match of the pattern whose group cannot be extended |
| RateText.FindIsMatch | src/index.ts:18-19 | the match found is a match of the pattern and its group cannot be extended |
| RateText.FindPreferredOver | src/index.ts:18-19 | the backtracking matcher prefers the match found over any one match of the pattern |
| RateText.RegexMatch | src/index.ts:18 | one way the pattern can match: `1`, a line-terminator-free `.+`, `=`, white space, and a run of `[\d,.]`; used by `FindIsPreferredMatch` and `FindNoneIffNoMatch` |
| RateText.Preferred | src/index.ts:18 | the backtracking order: earlier start, then shorter `.+?`, then at the same `=` a longer group; used by `FindIsPreferredMatch` |
| RateText.MatchAt | src/index.ts:18 | where the `=` of a match starting at a position is, if one starts there; its contract is stated by `MatchAtComplete` |
| RateText.Search | src/index.ts:18 | the match reported from a start position on; its contract is stated by `SearchFindsFirst` |
| RateText.Find | src/index.ts:18 | `rateText.match(...)`; its contract is stated by `FindIsPreferredMatch` and `FindNoneIffNoMatch` |
| RateText.FindIsPreferredMatch | src/index.ts:18-19 | the match found is a match of the pattern, its group cannot be extended, and it is the one the backtracking matcher prefers over every other match |
| RateText.FindNoneIffNoMatch | src/index.ts:18-22 | `match` gives null exactly when the text has no match of the pattern at all |
| RateText.StripCommas | src/index.ts:20 | `replace(/,/g, "")`; its contract is stated by `StripCommasRemovesAll`, `StripCommasAppend`, `StripCommasIdentity` and `StripCommasOfRateChars` |
| RateText.StripCommasRemovesAll | src/index.ts:20 | `replace(/,/g, "")` leaves no comma and never lengthens the text |
| RateText.StripCommasAppend | src/index.ts:20 | removing commas distributes over concatenation |
| RateText.StripSeparator | src/index.ts:20 | a thousands separator between two comma-free runs is dropped and the runs are joined |
| RateText.StripCommasIdentity | src/index.ts:20 | text without commas is left unchanged |
| RateText.StripCommasOfRateChars | src/index.ts:18-20 | a captured group with its commas removed consists only of digits and dots |
| RateText.ParsesAsNumber | src/index.ts:20 | `parseFloat` of a text of digits and dots is a number, not NaN, exactly when it starts with a digit or with a dot and a digit; used by `RateText` and the counterexample lemmas |
| RateText.RateTextAsWritten | src/index.ts:18-22 | lines 18-22 as written: no rate exactly when there is no match; otherwise comma-free digits and dots |
| RateText.RateText | src/index.ts:18-22 | corrected extraction: a rate only when the as-written text reads as a number, and then the same text |
| RateText.ExtractRateFromPage | src/index.ts:11-27 | as written: no rate when the element text could not be read; otherwise no rate exactly when the text has no match; any rate is digits and dots only, with no comma |
| RateText.CorrectedExtractRate | src/index.ts:11-27 | corrected: no rate when the text could not be read; a rate only where the as-written one reads as a number, and then the same text, non-empty, digits and dots, no comma |
| RateText.CommaOnlyShapeMatch | src/index.ts:18 | on any text spelled `"1 USD = , EUR"` the match starts at 0 and the group is `","` |
| RateText.CommaOnlyGivesEmptyText | src/index.ts:18-21 | as written, `"1 USD = , EUR"` yields `""`, which does not read as a number; the corrected extraction gives no rate |
| RateText.ThousandsShapeMatch | src/index.ts:18 | on any text spelled `"1 USD = 1,234.56 JPY"` the match starts at 0, its `=` is at 6 and the group spans `1,234.56` |
| RateText.ThousandsShapeStripped | src/index.ts:20 | the group `"1,234.56"` of such a text loses its comma |
| RateText.ExtractsThousands | src/index.ts:18-21 | on `"1 USD = 1,234.56 JPY"` the group spans `1,234.56` and the extracted rate is `"1234.56"` |
| RateText.PlaceholderShapeMatch | src/index.ts:18 | on any text spelled `"1.00 USD = ... EUR"` the match starts at 0 and the group is `"..."` |
| RateText.PlaceholderGivesNaNText | src/index.ts:18-21 | as written, `"1.00 USD = ... EUR"` yields `"..."`, which does not read as a number; the corrected extraction gives no rate |
| PairUniverse.RowPrefix | src/index.ts:55-56 | the visits of one pass of the inner loop up to a quote position; its contract is stated by `RowPrefixRange`, `RowPrefixOrdered`, `RowPrefixHas` and `RowPrefixLength` |
| PairUniverse.RowsPrefix | src/index.ts:54-56 | the visits of the finished passes of the outer loop; its contract is stated by `RowsPrefixRange`, `RowsPrefixOrdered`, `RowsPrefixHas` and `RowsPrefixLength` |
| PairUniverse.VisitOrder | src/index.ts:54-56 | every visit is in range and pairs two different codes |
| PairUniverse.RowPrefixRange | src/index.ts:55-56 | the inner loop's visits so far have the current base, earlier quotes, and codes that differ |
| PairUniverse.RowsPrefixRange | src/index.ts:54-56 | the outer loop's visits so far have earlier bases, quotes in range, and codes that differ |
| PairUniverse.RowPrefixOrdered | src/index.ts:55 | one row's visits are strictly increasing |
| PairUniverse.RowsPrefixOrdered | src/index.ts:54-55 | the visits of whole rows are strictly increasing in outer/inner order |
| PairUniverse.VisitOrderOrdered | src/index.ts:54-55 | all visits are strictly increasing in outer/inner order, so no pair is visited twice |
| PairUniverse.RowPrefixHas | src/index.ts:55-56 | the inner loop for a base visits every earlier quote whose code differs from the base |
| PairUniverse.EarlierRowKeeps | src/index.ts:54-55 | a visit of an earlier row keeps its place when one more row is done |
| PairUniverse.LastRowPlace | src/index.ts:54-55 | a visit of the newest row comes after every visit of the earlier rows |
| PairUniverse.RowsPrefixHas | src/index.ts:54-56 | the finished rows visit every pair with an earlier base whose two codes differ |
| PairUniverse.VisitOrderMembers | src/index.ts:54-56 | a pair of positions is visited exactly when the two codes differ |
| PairUniverse.RowPrefixLength | src/index.ts:55-56 | with distinct codes, a row skips exactly the base itself |
| PairUniverse.RowsPrefixLength | src/index.ts:54-56 | with distinct codes, i rows make i·(N−1) visits |
| PairUniverse.VisitOrderLength | src/index.ts:54-56 | with distinct codes, the loops make N·(N−1) visits |
| PairUniverse.RowPrefixGrows | src/index.ts:55 | one row's earlier visits are a prefix of its later ones |
| PairUniverse.RowsPrefixGrows | src/index.ts:54 | earlier finished rows are a prefix of later finished rows |
| PairUniverse.VisitedSoFarIsPrefix | src/index.ts:54-56 | what has been visited at any point is a prefix of all the visits |
| Batch.PageFetch | src/index.ts:61-66 | one pair's navigation followed by `extractRateFromPage` as written; its contract is stated by `PageFetchExtractsRates` and `CorrectedPageFetchAgrees` |
| Batch.PageFetchExtractsRates | src/index.ts:61-66 | every rate the browser's fetch hands the loop is digits and dots, with no comma (it may read as NaN) |
| Batch.CorrectedPageFetch | src/index.ts:61-66 | one pair's navigation followed by the corrected extraction; its contract is stated by `CorrectedPageFetchExtractsRates` and `CorrectedPageFetchAgrees` |
| Batch.CorrectedPageFetchExtractsRates | src/index.ts:61-66 | with the corrected extraction, every rate is non-empty digits and dots, with no comma, and reads as a number |
| Batch.CorrectedPageFetchAgrees | src/index.ts:61-66 | the corrected fetch navigates as the one as written does and keeps exactly its rates that read as numbers |
| Batch.Step | src/index.ts:56-69 | one visit: a failed navigation rejects, no rate leaves the dictionary as it is, a rate is stored under the pair's key; its contract is stated by `InnerStep` and `RunEntries` |
| Batch.Run | src/index.ts:54-69 | the outcome of the visits made so far; its contract is stated by `RunEntries`, `RunCompletesIff` and `RunAbortedAt` |
| Batch.BatchRun | src/index.ts:53-77 | the run over `COMMON_CURRENCIES`; its contract is stated by the `Batch*` lemmas |
| Batch.CorrectedBatchRun | src/index.ts:53-77 | the run over `COMMON_CURRENCIES` with the corrected fetch; its contract is stated by `CorrectedBatchValuesAreRates` and `PlaceholderDroppedWhenCorrected` |
| Batch.GetAllCurrencyRates | src/index.ts:48-84 | the outcome is that of the full run; the dictionary written to the file is the one returned; nothing is written when the run rejects |
| Batch.VisitAll | src/index.ts:49-74 | the nested loops filling `rates` in place end with the outcome of performing every visit in order |
| Batch.VisitRow | src/index.ts:55-73 | one pass of the inner loop extends the outcome by one row of visits, or rejects at a failed navigation |
| Batch.RowEndsAborted | src/index.ts:55-66 | a failed navigation part-way through a row decides the outcome of the row |
| Batch.InnerStep | src/index.ts:56-69 | a same-code iteration changes nothing; any other iteration performs one step |
| Batch.RunStaysAborted | src/index.ts:53-77 | after a failed navigation, further visits do not change the outcome |
| BatchProperties.RunCompletesIff | src/index.ts:61-64 | a run completes exactly when none of its navigations fails |
| BatchProperties.RunAbortedAt | src/index.ts:61-64 | a rejected run names the first visit whose navigation failed |
| BatchProperties.VisitedBeforeAbortNavigated | src/index.ts:54-64 | in loop order, every visit before the failed one navigated |
| BatchProperties.RunKeysFromVisits | src/index.ts:58-69 | every key was written for a visited pair whose extraction succeeded |
| BatchProperties.KeyOfInjective | src/index.ts:58 | with distinct three-letter codes, different position pairs get different keys |
| BatchProperties.RunEntries | src/index.ts:58-69 | a pair's key is present exactly when the pair was visited and its extraction succeeded, and its value is that rate |
| BatchProperties.RunSizeBound | src/index.ts:66-69 | each visit adds at most one entry |
| BatchProperties.RunSizeExact | src/index.ts:54-69 | with distinct codes, no repeated visit and every extraction succeeding, there is one entry per visit |
| BatchProperties.RatesNeverOverwritten | src/index.ts:54-68 | an entry, once written, stays with the same value until the end of the run |
| BatchProperties.ListEntries | src/index.ts:54-69 | over any list of distinct codes, `"A / B"` is present exactly when A and B are different listed codes with an extracted rate, and holds that rate |
| BatchProperties.ListKeysWellFormed | src/index.ts:54-58 | every key reads back as two different listed codes whose key it is, and its value is their rate |
| BatchProperties.ListHasNoSelfKey | src/index.ts:56 | no key `"X / X"` exists, for any string X |
| BatchProperties.ListSizeBound | src/index.ts:54-56 | the dictionary has at most N·(N−1) entries |
| BatchProperties.ListSizeExact | src/index.ts:54-69 | when every pair of different listed codes yields a rate, the run completes with exactly N·(N−1) entries |
| BatchProperties.ListCompletesIff | src/index.ts:61-64 | the run completes exactly when no navigation of a pair of different listed codes fails |
| BatchProperties.ListAbortedAt | src/index.ts:53-77 | a rejected run names a pair of different listed codes whose navigation failed, and every such pair the loops reach earlier navigated |
| BatchProperties.ListValuesAreRateTexts | src/index.ts:66-69 | when the fetch extracts only comma-free digits and dots, every value is such a text |
| BatchProperties.ListValuesAreRates | src/index.ts:66-69 | when the fetch extracts only numeric rate texts, every value is non-empty digits and dots, with no comma, and reads as a number |
| BatchProperties.PageCompletesIff | src/index.ts:61-64 | with the browser's fetch, the run completes exactly when `page.goto` succeeds for every pair of different listed codes |
| BatchProperties.PageAbortedAt | src/index.ts:53-77 | with the browser's fetch, a rejected run names a pair whose `page.goto` failed, and every earlier pair navigated |
| BatchProperties.BatchEntries | src/index.ts:54-69 | `"A / B"` is present exactly when A and B are different common codes with an extracted rate, and holds that rate |
| BatchProperties.BatchKeysWellFormed | src/index.ts:54-58 | every key reads back as two different common codes whose key it is, and its value is their rate |
| BatchProperties.BatchHasNoSelfKey | src/index.ts:56 | no key `"X / X"` exists, for any string X |
| BatchProperties.BatchValuesAreRates | src/index.ts:66-69 | every value is the comma-free digits and dots handed to `parseFloat` |
| BatchProperties.CorrectedBatchValuesAreRates | src/index.ts:66-69 | with the corrected extraction no value is NaN: each is non-empty digits and dots, with no comma, and reads as a number |
| BatchProperties.PlaceholderStoredAsWritten | src/index.ts:66-68 | as written, a pair whose page shows the loading placeholder is stored with `"..."`, which reads as NaN |
| BatchProperties.PlaceholderDroppedWhenCorrected | src/index.ts:66-68 | with the corrected extraction that pair has no entry |
| BatchProperties.BatchSizeBound | src/index.ts:54-56 | the dictionary has at most 40·39 = 1560 entries |
| BatchProperties.BatchSizeExact | src/index.ts:54-69 | when every pair of different codes yields a rate, the run completes with exactly 1560 entries |
| BatchProperties.BatchCompletesIff | src/index.ts:53-83 | the run completes exactly when navigation succeeds for every pair of different common codes |
| BatchProperties.BatchAbortedAt | src/index.ts:53-77 | a rejected run names the positions of two different common codes whose navigation failed, and every such pair the loops reach earlier navigated |

## Left out

- Playwright (browser launch, new page, `goto`, `waitForSelector`, `textContent`, `browser.close`): foreign-library I/O. A navigation is the `Navigator` parameter. The element read is the `Option<string>` given to `ExtractRateFromPage`, with `None` for the timeout or read error that the `catch` on src/index.ts:23-26 turns into null.
- The `Navigator` is a function, so the same pair always loads the same way. This loses nothing, because each pair is visited once.
- `page.waitForTimeout(1000)`: timing only.
- `writeFileSync`, the output path and `JSON.stringify`: file I/O. `GetAllCurrencyRates` returns the dictionary that would be written.
- `console.log` and `console.error`: output only.
- The CLI block at src/index.ts:87-91: process entry point.
- `fetchCurrencyRate` (src/index.ts:29-46): a browser wrapper around the same extraction, one pair per browser. Its parsing is `ExtractRateFromPage`.
- `parseFloat`: floating point.
- RateText.ExtractRateFromPage: returns the comma-free text that `parseFloat` reads, not the JavaScript number. `ParsesAsNumber` states only whether that number is NaN. `JSON.stringify` writing NaN as `null` is not modelled.
- Strings are sequences of Unicode scalar values. JavaScript's UTF-16 code units are not modelled, which matters only for characters outside the Basic Multilingual Plane.
- Retries, back-off, a concurrency limit and error classes: the code has none.
- src/manual-test.ts, playwright.config.ts and vitest.config.ts: scripting and tool configuration.

## Findings

| source | as written | input that shows it | evidently intended | confidence | as-written member | corrected member |
|---|---|---|---|---|---|---|
| src/index.ts:18-21 | the captured group goes to `parseFloat` even when, once its commas are gone, it starts neither with a digit nor with a dot followed by a digit (`!ParsesAsNumber`), for example when it is all dots. `parseFloat` then gives NaN, and because NaN `!== null`, line 68 stores it; `JSON.stringify` writes it as `null` | result text `"1.00 USD = ... EUR"` (a loading placeholder): the group is `"..."` | no entry for that pair, as for any other page with no rate | not executed; medium | RateText.PlaceholderGivesNaNText | RateText.RateText |
| src/index.ts:18-21 | a group made only of commas is stripped to the empty text, which `parseFloat` reads as NaN; line 68 stores it | result text `"1 USD = , EUR"`: the group is `","`, stripped to `""` | no entry for that pair | not executed; low | RateText.CommaOnlyGivesEmptyText | RateText.RateText |
