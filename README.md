# Offline dictionary: search history, dataset download and exact-word search

This project models the core of a browser dictionary that works offline. It
downloads a SQLite dataset of WordNet definitions once, opens it in an
in-browser SQLite engine, and answers exact-word queries against the `words`
table. It also keeps a list of recent searches in `localStorage`.

The model has six modules:

- `JsBuiltins` holds the JavaScript built-ins the core relies on:
  - `toLowerCase`, restricted to ASCII;
  - `trim` with the JavaScript whitespace set;
  - `Math.min` on reals;
  - the decimal rendering of a status code;
  - the `Option` and `Result` wrappers.
- `Seqs` holds `Array.prototype.filter` and what it promises: kept elements
  pass the predicate and keep their relative order.
- `SearchHistory` holds the `searchHistory` ledger:
  - the list step of `addToHistory`: lower-case, de-duplicate, prepend, cap at 50;
  - the newest-first sort of `loadHistory`, as an in-place insertion sort on an array;
  - the component state as the class `Ledger`, with the stored value and the displayed `history`.
- `Loader` holds the download loop of `loadDatabase`:
  - the chunk read loop with its progress percentages;
  - the loop that copies the chunks into one byte buffer.
- `Search` holds the exact-match statement that `handleSearch` runs, stepped
  row by row.
- `App` holds the component state as the class `App`, with `loadDatabase`,
  `handleSearch`, the `onChange` query setter and the null case of `escapeHtml`.

Two notes on how the model relates to the code:

- The search key and the history key are lower-cased but **not trimmed**.
  `handleSearch` only uses `trim()` in its guard. `Search.PaddedQueryMatchesNothing`
  states the consequence: a query with leading whitespace matches no row of a
  table whose words do not start with whitespace. The
  model follows the code here, not the intent of searching for the trimmed word.
- `src/App.jsx` is the plain-JavaScript twin of `src/App.tsx`, and the same
  Dafny members model both. The correspondence is:
  - `src/App.jsx:6-13` gives the state hooks (`App.App.constructor`).
  - `src/App.jsx:19-68` is `loadDatabase` (`App.App.LoadDatabase`).
  - `src/App.jsx:41-49` is the read loop (`Loader.ReadChunks`).
  - `src/App.jsx:51-56` is the copy loop (`Loader.Assemble`).
  - `src/App.jsx:70-99` is `handleSearch` (`App.App.HandleSearch`).
  - `src/App.jsx:83-88` is the statement loop (`Search.Execute`).
  - `src/App.jsx:101-109` is `escapeHtml` (`App.EscapeHtml`).

  The rows below that cite `src/App.jsx` are lemmas about those shared definitions.

## Model

| member | source | states |
|---|---|---|
| JsBuiltins.Lower | src/SearchHistory.tsx:39 | lower-casing preserves length and maps each character independently: ASCII capitals become small letters, every other character is kept |
| JsBuiltins.LowerIdempotent | src/SearchHistory.tsx:39 | lower-casing a string twice gives the same as once. So a word taken from the history, already lower-cased, yields itself as the key when searched again; `Search.BindKey` uses this |
| JsBuiltins.LowerIgnoresAsciiCase | src/App.tsx:101 | two strings that agree character by character up to ASCII case have the same lower-cased form |
| JsBuiltins.BlankIffAllWhitespace | src/App.tsx:89 | `query.trim()` is empty exactly when every character of the query is JavaScript whitespace, in both directions |
| JsBuiltins.Trim | src/App.tsx:89 | `trim()`: drops leading, then trailing, JavaScript whitespace; it is described by `JsBuiltins.BlankIffAllWhitespace` |
| JsBuiltins.IsBlank | src/App.tsx:89 | `!query.trim()`: the guard's test that the trimmed query is empty; `JsBuiltins.BlankIffAllWhitespace` is its characterisation |
| JsBuiltins.NatToString | src/App.tsx:49 | `'' + res.status` is a non-empty string of decimal digits whose value (`DigitsValue`) is the status, without a leading zero, and a single digit exactly for statuses below 10, so status 0 renders as "0" |
| JsBuiltins.MinReal | src/App.tsx:64 | `Math.min` returns one of its two arguments and is at most both |
| Seqs.Filter | src/SearchHistory.tsx:51 | `Array.prototype.filter`: the result is never longer than the input; `Seqs.FilterMembers`, `Seqs.FilterIsSubsequence` and `Seqs.FilterPartition` describe it |
| Seqs.FilterMembers | src/SearchHistory.tsx:51 | an element survives `filter` exactly when it was in the list and passes the predicate |
| Seqs.FilterIsSubsequence | src/SearchHistory.tsx:51 | the results of `filter` sit in the input at strictly increasing positions, with the same values, and every position whose element passes is among them |
| Seqs.FilterPartition | src/SearchHistory.tsx:51 | what `filter` keeps and what it drops together hold every input element exactly as many times as the input does |
| Seqs.FilterPartitionLength | src/SearchHistory.tsx:51 | the lengths of the kept part and the dropped part add up to the input length |
| SearchHistory.PriorEntries | src/SearchHistory.tsx:43-48 | the list `addToHistory` starts from: empty when the key is missing or empty, the parsed list when it parses; no list at all exactly when `JSON.parse` throws |
| SearchHistory.Without | src/SearchHistory.tsx:51 | the filter on the stored list keeps exactly the entries whose word is not the key |
| SearchHistory.WithoutCounts | src/SearchHistory.tsx:51 | the kept entries and the entries carrying the key together make the whole prior list, so the kept list is shorter by the number of entries carrying the key |
| SearchHistory.AtMostOneWithWord | src/SearchHistory.tsx:51 | in a list without repeated words, exactly one entry carries a word that occurs and none carries one that does not |
| SearchHistory.Updated | src/SearchHistory.tsx:38-57 | the list `addToHistory` writes: between 1 and 50 entries, the first the lower-cased word with the current time; `SearchHistory.UpdatedShape` gives the rest |
| SearchHistory.UpdatedShape | src/SearchHistory.tsx:38-57 | after `addToHistory`: the lower-cased word with the current time comes first; no later entry has that word; the length is min(50, 1 + number of surviving entries); the rest are the surviving prior entries in stored order |
| SearchHistory.UpdatedLength | src/SearchHistory.tsx:50-57 | against a list without repeated words, the new list holds min(50, n + 1) entries for a new word and min(50, n) for a word already present, where n is the number of prior entries |
| SearchHistory.UpdatedKeepsPriorOrder | src/SearchHistory.tsx:51-57 | every entry after the new one is an unchanged prior entry, and their relative order is the prior order |
| SearchHistory.UpdatedFromNothing | src/SearchHistory.tsx:43-54 | with nothing stored, the new list is exactly one entry: the lower-cased word with the current time |
| SearchHistory.UpdatedPreservesWellFormed | src/SearchHistory.tsx:50-57 | a prior list without repeated words yields a list of at most 50 entries without repeated words |
| SearchHistory.RepeatedSearchKeepsLatest | src/SearchHistory.tsx:38-54 | searching the same word twice, in any ASCII case, leaves a single entry for it, first and stamped with the later time |
| SearchHistory.UpdatedShiftsPrefix | src/SearchHistory.tsx:51-57 | entries ahead of any occurrence of the word move down one place behind the new entry, as far as the cap allows |
| SearchHistory.AppendAllKeepsMostRecent | src/SearchHistory.tsx:50-57 | after any run of searches for distinct words, the list begins with the latest of them, newest first; after 50 or more it holds exactly the latest 50 |
| SearchHistory.AppendAllLength | src/SearchHistory.tsx:54-57 | starting from an empty list, the list never holds more entries than there were searches |
| SearchHistory.ShownMostRecentFirst | src/SearchHistory.tsx:26-29 | up to 50 searches for distinct words at increasing times, starting from nothing, are displayed in reverse order of searching |
| SearchHistory.Insert | src/SearchHistory.tsx:26-28 | one step of the newest-first sort: the entry goes behind every entry at least as recent; `SearchHistory.InsertPermutes`, `SearchHistory.InsertKeepsNewestFirst` and `SearchHistory.InsertKeepsTies` describe it |
| SearchHistory.ByRecency | src/SearchHistory.tsx:26-28 | the order `sort` gives with the comparator `b - a`; it is proved sorted by `SearchHistory.ByRecencySorts`, a permutation by `SearchHistory.ByRecencyPermutes` and stable by `SearchHistory.ByRecencyIsStable` |
| SearchHistory.InsertPermutes | src/SearchHistory.tsx:26-28 | one insertion step of the sort adds exactly the inserted entry to the list's multiset |
| SearchHistory.InsertKeepsNewestFirst | src/SearchHistory.tsx:26-28 | inserting into a newest-first list keeps it newest first |
| SearchHistory.ByRecencySorts | src/SearchHistory.tsx:26-28 | the sorted history has non-increasing timestamps |
| SearchHistory.ByRecencyPermutes | src/SearchHistory.tsx:26-28 | the sorted history holds the same entries as the parsed list, each as many times |
| SearchHistory.ByRecencySortsAndPermutes | src/SearchHistory.tsx:26-28 | the sorted history has non-increasing timestamps and is a permutation of the parsed list |
| SearchHistory.InsertKeepsTies | src/SearchHistory.tsx:26-28 | inserting into a newest-first list puts the entry behind every entry with the same timestamp, and keeps the order of those entries |
| SearchHistory.PrependFilter | src/SearchHistory.tsx:26-28 | when the entry goes in front, its timestamp is shared with no entry behind it |
| SearchHistory.ByRecencyIsStable | src/SearchHistory.tsx:26-28 | the sort is stable: for every timestamp, the entries stamped with it appear in the sorted list in their stored order, as `Array.prototype.sort` guarantees |
| SearchHistory.ByRecencyOfSorted | src/SearchHistory.tsx:26-28 | a list that is already newest first is displayed in its stored order |
| SearchHistory.InsertAt | src/SearchHistory.tsx:26-28 | in a list that is split into entries at least as recent as the new one followed by strictly older ones, the entry is inserted exactly at the split |
| SearchHistory.SiftDown | src/SearchHistory.tsx:26-28 | one pass of the in-place sort turns the sorted prefix plus the next entry into that prefix with the entry inserted, and leaves the rest of the array untouched |
| SearchHistory.SiftedIsInsert | src/SearchHistory.tsx:26-28 | the layout the sift loop leaves (older entries shifted up one place, the moved entry in the gap) is exactly the insertion of that entry into the sorted prefix |
| SearchHistory.SortNewestFirst | src/SearchHistory.tsx:26-28 | the in-place sort leaves the array equal to `ByRecency` of its old contents, which is newest first, a permutation and stable |
| SearchHistory.Displayed | src/SearchHistory.tsx:20-34 | after `loadHistory`, the display is a newest-first permutation of the stored list; when the key is missing, empty or unparseable, the display is left as it was |
| SearchHistory.Ledger.constructor | src/SearchHistory.tsx:14-18 | mounting starts from an empty display and runs `loadHistory` against the stored value |
| SearchHistory.Ledger.LoadHistory | src/SearchHistory.tsx:20-34 | storage is unchanged, and the display becomes the sorted stored list, or stays as it was when nothing parses |
| SearchHistory.Ledger.AddToHistory | src/SearchHistory.tsx:36-64 | when the stored value parses (or is missing or empty), the updated list is written once and displayed sorted; when parsing throws, neither storage nor display changes |
| SearchHistory.Ledger.ClearHistory | src/SearchHistory.tsx:66-73 | the key is removed and the display becomes empty |
| Loader.TotalLength | src/App.tsx:63 | the value `loaded` reaches: zero exactly when no chunk carries a byte |
| Loader.Flatten | src/App.tsx:68-73 | the chunks end to end, with exactly as many bytes as the `loaded` counter |
| Loader.PrefixLength | src/App.tsx:63 | the byte count of the chunks read so far never exceeds the byte count of all chunks |
| Loader.Percent | src/App.tsx:64 | the percent formula always lies in [0, 100], and in [0, 90] when the size is unknown; the three lemmas that follow describe it further |
| Loader.PercentKnownTotal | src/App.tsx:64 | with a positive content-length, progress lies in [0, 100]; it is 100 once the advertised bytes have all arrived and below 100 before |
| Loader.PercentUnknownTotal | src/App.jsx:35-47 | without a usable content-length, progress is one percent per 100000 bytes, capped at 90, so it never shows completion |
| Loader.PercentMonotone | src/App.jsx:46-47 | more bytes never give a smaller percentage |
| Loader.ReadChunks | src/App.tsx:53-66 | the loop collects every chunk in order; `loaded` is their total length; one progress value is set per chunk, equal to the percentage of the bytes read so far; the values never decrease |
| Loader.SetAt | src/App.tsx:71 | `buffer.set` writes the chunk at the offset and leaves the bytes before and after it unchanged |
| Loader.Assemble | src/App.tsx:68-73 | the buffer is allocated with `loaded` bytes, ends up holding the chunks end to end, and the final offset equals `loaded` |
| Search.BindKey | src/App.tsx:101 | the bound key is as long as the query and already lower-case; it is not trimmed |
| Search.Matching | src/App.tsx:98-105 | the rows the statement selects, never more than the table holds; `Search.MatchingIsExactMatch` says which ones |
| Search.MatchingIsExactMatch | src/App.tsx:98-105 | a row is returned exactly when its lower-cased word equals the bound key; the returned rows keep table order, and every matching position of the table is returned, repeated rows included |
| Search.CaseInsensitiveQuery | src/App.jsx:81-84 | queries that differ only in ASCII letter case return the same rows |
| Search.PaddedQueryMatchesNothing | src/App.tsx:89-101 | because the key is not trimmed, a query starting with whitespace returns no row from a table whose words do not start with whitespace |
| Search.Execute | src/App.tsx:100-106 | stepping the statement yields exactly the matching rows, in table order |
| App.LoadOutcome | src/App.tsx:36-85 | how `loadDatabase` ends: a database only after the engine started, the response was ok and the body was read to the end; `App.LoadSucceedsOnlyOnWholeBody` and `App.BadStatusFails` give both directions and the error messages |
| App.LoadSucceedsOnlyOnWholeBody | src/App.tsx:36-79 | the database is opened exactly when the engine starts, the response is ok, the body is read to the end and the engine accepts the bytes; it is then the database built from the concatenated chunks |
| App.BadStatusFails | src/App.jsx:23-32 | a non-ok response fails with the fetch error carrying its status, and the progress bar stays at 0, since no byte is read |
| App.StatusMessageInjective | src/App.jsx:32 | the fetch error message determines the status: two statuses give the same message only when they are equal |
| App.LastProgress | src/App.tsx:40-65 | the value `progress` holds when `loadDatabase` ends: 0 from the reset until a chunk arrives, then the percent of all bytes read; `App.LastProgressBounds` bounds it and `Loader.ReadChunks` gives the per-chunk values |
| App.LastProgressBounds | src/App.jsx:34-48 | the last progress shown lies in [0, 100], and in [0, 90] when the size is unknown |
| App.EscapeHtml | src/App.tsx:119-121 | null and undefined render as the empty string; a string goes through the entity replacements |
| App.App.constructor | src/App.tsx:23-30 | the initial state: empty query, "Loading database...", no error, no definitions, no title, no database, loading, progress 0 |
| App.App.SetQuery | src/App.tsx:139 | the input handler sets the query and nothing else |
| App.App.LoadDatabase | src/App.tsx:36-85 | loading ends not loading, with the last progress value set; on success the database is stored and "Database loaded." shown; on any failure the info is cleared and the error is the load-error prefix plus the message; query, definitions and title are untouched |
| App.App.HandleSearch | src/App.tsx:87-117 | with no database or a blank query nothing changes. Otherwise, on success: the matching rows, the raw query as title, no error, and "No definitions found" exactly when there are no rows. On an engine error: the search-error message, with info, definitions and title cleared |

## Left out

- JsBuiltins.Lower: folds ASCII letters only, standing for both `toLowerCase` and SQLite's `lower()`; SQLite's built-in `lower()` folds only ASCII but `toLowerCase` folds all of Unicode, so the model differs from the source in both directions. In the source the query "CAFÉ" is bound as "café" and matches a stored "café", where the model's key "cafÉ" matches nothing; in the source a query containing "É" never matches a stored word spelled with "É", where `Search.Matching` does; and the source files "CAFÉ" and "café" under one history entry, the model under two.
- Timestamps: the ISO string that `new Date().toISOString()` writes, and its parse back with `new Date(...).getTime()`, are modelled as the integer millisecond value. Invalid dates (NaN comparisons) are not modelled.
- `localStorage` is the field `stored`. A stored value is missing, empty, unparseable, or a parsed list of entries. A parsed value of the wrong shape counts as unparseable. A quota failure of `setItem` is not modelled.
- `console.error` calls, `formatDateTime` / `toLocaleString` and all JSX rendering, including `Math.round` of the progress, are not modelled.
- `window.addToSearchHistory`: the effect that publishes and removes the global bridge is not modelled. `src/App.tsx` never calls it, so searching does not itself record history.
- `initSqlJs`, `fetch`, `res.headers.get`/`parseInt` and `reader.read()` are inputs. They are the optional engine start failure; the `Fetched` value (status, parsed size, with 0 for missing or unparseable, the chunks and an optional read failure); and the engine's verdict on the bytes, a function parameter `open`. The WASM download and the `res.body!` null case are not modelled.
- Numbers are reals, not IEEE doubles: `Percent` ignores rounding of `loaded / total * 100`.
- The SQL engine itself is not modelled: the `words` table is a sequence of rows, and `prepare`, `bind`, `step` and `reset` are replaced by a cursor over it. An engine error during the search is the parameter `engineFailure`.
- App.EscapeHtml: the entity replacements of the string case are the parameter `replaceEntities`. Only the null and undefined cases are fixed, because the replacement literals in the source text appear already entity-decoded.
- Concurrency: `async` handlers are modelled as running to completion one at a time. Interleavings of `loadDatabase` and `handleSearch`, and React's batching of state updates, are not modelled.
- `wordnet-to-sqlite.js` (the build-time converter) and `src/types.d.ts` (type declarations) are not part of this model.
