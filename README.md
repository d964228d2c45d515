# YNU-LMS homework list: a Dafny model

The browser extension adds a list of unfinished assignments to the home page of
the Yokohama National University learning-management system. Its core is
`js/main.js`, which does four things:

1. **Lecture discovery** (`fetchLecIds`). Every timetable cell whose text holds
   the period mark `限` contributes the ids of the anchors in its row that
   carry an `onclick` attribute (anchors without one are skipped). Each id is
   captured from that `onclick` text by the pattern `/'([^"]+)'/`.
   The ids are then deduplicated, and each keeps the place of its first
   occurrence.
2. **Assignment extraction** (`fetchHomeworks`):
   - each lecture's page is fetched in input order, with a 500 ms pause between
     two fetches;
   - each page is scanned for report, survey and test rows that are open
     (`公開中` or `延長受付中`) and still show a deadline (`期限`);
   - each such row becomes a `Homework` record, built by `extractLecName`,
     `extractDeadline` and `generateTypeFromId`.
3. **The cache gate**, made of the page-load function, `onButtonClicked` and
   `saveToStorage`:
   - a stored entry is shown as it is, with no extraction;
   - a refresh is ignored while a progress bar is present, and refused with a
     warning when it comes less than 15 s after the stored time;
   - otherwise the refresh removes the table, extracts, shows the new records
     and saves them.
4. **Clearing the store** on the login page (`js/background.js`).

The modules follow that structure:

| Module | File | Contents |
|---|---|---|
| `Common` | `common.dfy` | `Option`, `Result` and the script's fatal errors (`Fault`). Also `ConcatMap`, an in-order fold that concatenates per-item results and stops at the first error, with its lemmas. |
| `JsText` | `js_text.dfy` | JavaScript's `indexOf` (-1 when absent), `includes`, `substring` (clamps its bounds and swaps reversed ones) and `slice`. |
| `Records` | `records.dfy` | The `Homework` record and its three string helpers. |
| `OnclickPattern` | `onclick.dfy` | The regular expression's match, first leftmost, then greedy. |
| `Discovery` | `discovery.dfy` | `fetchLecIds`, as a specification function and as the nested-loop method. |
| `Assignments` | `assignments.dfy` | `fetchHomeworks`, as specification functions over fetched pages and the trace of fetches and pauses, and as loop methods. |
| `CacheGate` | `cache_gate.dfy` | Class `Extension`, whose fields are the stored entry, the presence of a progress bar and the table shown. |

Every `TypeError` the model keeps is a `Failure` that aborts the run:
- an `onclick` the pattern does not match (`match(...)[1]` on null);
- a lecture page without `#home`;
- an assignment row without a `td03` status cell;
- an open, unsubmitted row without an anchor;
- a refresh when no table is shown (`removeTable`).

The throws the model does not keep are listed under "## Left out". They come
from a `#home` whose next sibling node is not an element, a rejected `fetch`,
and foreign keys in storage.

Behaviours of the code that the model keeps:
- An `onclick` the pattern does not match makes `fetchLecIds` throw
  (js/main.js:93), so discovery fails; it is not skipped.
- Discovery keeps first-seen order (`[...new Set(...)]`, js/main.js:102), and
  the model proves it.
- A `fetchHomeworks` that throws never removes its progress bar. Every later
  refresh on that page is then ignored (`loading` stays true).
- When storage is empty, `cachedData.unixTime` is `undefined` and the
  subtraction gives NaN. The comparison is then false, so the refresh goes
  ahead.

## Model

| member | source | states |
|---|---|---|
| JsText.Substring | js/main.js:233 | Bounds in order and in range give the characters between them, and reversed bounds are swapped. An end below 0 counts as 0, a start past the end of the text counts as its length, and the result is never longer than the text. |
| JsText.SubstringSwap | js/main.js:233 | `substring` gives the same text whichever order its bounds come in. |
| JsText.Slice | js/main.js:237 | The result is a suffix. A start in range cuts there. A start past the end gives the empty text. A negative start counts from the end, and one below minus the length gives the whole text. |
| Records.HomeworkType.Label | js/main.js:240-248 | Each kind has its own label: `レポート` exactly for a report, `アンケート` exactly for a survey, `テスト` exactly for a test. |
| Records.ExtractLecName | js/main.js:232-234 | The two-character prefix is dropped and the name ends before the first `[`, and it holds no `[`. With no `[`, the first two characters are returned. With a `[` at index 0 or 1, the bounds are swapped, so the text runs from that `[` to index 2. |
| Records.ExtractDeadline | js/main.js:236-238 | The result is a suffix of the status text. It is the text after the first `:`, or the whole text when there is no `:`. |
| Records.GenerateTypeFromId | js/main.js:240-248 | Report exactly when the id contains `REP`. Survey exactly when it contains `ANK` but not `REP`. Test exactly when it contains neither. |
| Records.FlaggedIdType | js/main.js:147 | For an id that the extraction accepts (one containing REP, ANK or TES), the type is Test only if the id contains `TES`. |
| Records.LecNameExample | js/main.js:232-234 | The heading `> Linear Algebra [EN101]` gives the name `Linear Algebra `. |
| Records.DeadlineExample | js/main.js:236-238 | The status `期限:2024-01-10 23:59` gives the deadline `2024-01-10 23:59`. |
| JsText.IndexOf | js/main.js:233 | The result is -1 exactly when the character is absent. Otherwise it is the index of the character's first occurrence. |
| JsText.Contains | js/main.js:85 | `includes` is true exactly when the needle occurs at some position. |
| OnclickPattern.QuotedId | js/main.js:93 | There is no capture exactly when no `'…'` span free of `"` exists. Otherwise the capture is the inside of the leftmost opening's farthest closing quote. |
| OnclickPattern.MatchUnique | js/main.js:93 | The match the engine reports is unique. |
| OnclickPattern.FormSubmitYieldsId | js/main.js:92-93 | Take `pre'id'post`, with no `'` in `pre` or `post`, and a non-empty `id` with no `"`. The capture is exactly `id`. |
| OnclickPattern.FormSubmitExample | js/main.js:92-93 | `formSubmit('123')` gives `123`. |
| OnclickPattern.NoQuoteNoMatch | js/main.js:93 | An `onclick` without `'` has no match, so `[1]` throws. |
| Discovery.LectureIds | js/main.js:76-104 | Discovery fails exactly when the scan throws, with the scan's fault. Otherwise it returns the scanned ids without duplicates and with the same members. |
| Discovery.Dedup | js/main.js:102 | `[...new Set(s)]` holds no duplicates and has the same members as `s`. |
| Discovery.DedupFirstSeen | js/main.js:102 | The deduplicated ids appear in the order of their first occurrence in the input. |
| Discovery.LectureIdsFailIff | js/main.js:83-97 | Discovery fails exactly when some lecture cell's row holds an `onclick` that the pattern does not match. |
| Discovery.LectureIdsMembers | js/main.js:83-103 | A successful discovery returns each id once. An id is returned exactly when some anchor in the row of some cell containing `限` yields it. The ids come out in the order of their first occurrence in the scan. |
| Discovery.FetchLecIds | js/main.js:76-104 | The nested loops, with the early exit on a throw, compute exactly `LectureIds`. |
| Assignments.LectureUrl | js/main.js:126 | The URL is the fixed prefix followed by the id, so the id can be recovered from it. |
| Assignments.LectureUrlInjective | js/main.js:126 | Distinct lecture ids are fetched from distinct URLs. |
| Assignments.CellOutcome | js/main.js:141-178 | One cell fails exactly when `#home` is missing, or when it is an assignment cell with no status cell, or an open, unsubmitted assignment cell with no anchor. It yields at most one record. It yields one exactly when the row is flagged, open, still shows a deadline and has an anchor, and that record is built from the title, heading, id and status. |
| Assignments.Harvest | js/main.js:106-190 | The run fails exactly when some lecture's page fails (`FirstFailing` is below the number of lectures). No lectures give no records. |
| Assignments.PageFailsIff | js/main.js:137-178 | A page fails exactly when it has a cell and no `#home`, or when some cell fails. |
| Assignments.CellRecord | js/main.js:169-177 | A cell that succeeds yields a given record exactly when the cell qualifies and has an anchor, and the record is the one built from it. |
| Assignments.PageRecords | js/main.js:147-178 | A page that succeeds yields a record for exactly its qualifying rows. |
| Assignments.PageOrder | js/main.js:137 | Records keep document order: a page split in two yields the records of the first part, then those of the second. |
| Assignments.HarvestOrder | js/main.js:122-183 | Records keep lecture order: the records for `a + b` are those of `a` followed by those of `b`, and the first failure wins. |
| Assignments.FirstFailing | js/main.js:122-180 | The index of the first lecture whose page fails, or the number of lectures. Every earlier page succeeds. |
| Assignments.HarvestFailure | js/main.js:122-183 | The extraction fails exactly when some page fails, and then with the fault of the first failing page. |
| Assignments.Pacing | js/main.js:122-128 | A full run over N lectures has 2N-1 events (none for N = 0). It starts with the first lecture's fetch and ends with the last one's. |
| Assignments.HarvestTrace | js/main.js:122-183 | The events of a run are a prefix of the full pacing. With any lecture, the run starts by fetching the first one. |
| Assignments.PacingPrefix | js/main.js:122-183 | The pacing of the first n lectures is the first 2n-1 events of the full pacing. |
| Assignments.LectureStep | js/main.js:125-182 | After the fetch of lecture i, a failing page decides the run's result and ends its trace. A succeeding page appends its records and extends the trace to the first i+1 lectures. |
| Assignments.PacingAt | js/main.js:122-128 | Event k of a full run is the fetch of lecture k/2 when k is even and a 500 ms pause when k is odd, so exactly one pause separates each two consecutive fetches. |
| Assignments.PacingSnoc | js/main.js:122-183 | One more lecture adds a 500 ms pause (unless it is the first) and then its fetch. |
| Assignments.FetchedUrlsAppend | js/main.js:128-182 | The fetched URLs and the pause count of a concatenated trace are those of its parts. |
| Assignments.Urls | js/main.js:125-126 | Position i holds the URL of lecture i, for every lecture in input order. |
| Assignments.PacingUrls | js/main.js:122-128 | The fetches of a full run are the lectures' URLs, in input order. |
| Assignments.PacingSleeps | js/main.js:182 | A full run over N lectures pauses max(N-1, 0) times. |
| Assignments.PacingPauses | js/main.js:182 | Every pause lasts 500 ms. |
| Assignments.PacingShape | js/main.js:122-183 | For N lectures, the run fetches their URLs in input order and makes exactly max(N-1, 0) pauses, each of 500 ms. It ends with the last lecture's fetch. |
| Assignments.FailedRunShape | js/main.js:122-183 | A run that aborts at lecture k has fetched lectures 0..k in order and paused k times. |
| Assignments.AbortAt | js/main.js:122-183 | A page that throws after successful ones determines the run's result, and the run's trace ends with its fetch. |
| Assignments.HarvestStep | js/main.js:177 | A page that succeeds appends its records to those of the lectures before it. |
| Assignments.CompleteRun | js/main.js:122-183 | A successful run performs the full pacing. |
| Assignments.ScanCell | js/main.js:141-178 | The loop over the row's spans, followed by the status and anchor checks, computes exactly `CellOutcome`. |
| Assignments.ScanPage | js/main.js:135-180 | The loop over one page's cells computes exactly the page's records or its first fault. |
| Assignments.FetchHomeworks | js/main.js:106-190 | The loop over lectures returns exactly `Harvest`. Its events are exactly the fetches and pauses of `HarvestTrace`: there is no pause after the last lecture, and a throw ends the trace. |
| CacheGate.TooSoon | js/main.js:199-202 | A refresh is refused exactly when an entry is stored and less than 15 s have passed since its time. With an empty store the difference is NaN, so the refresh is never refused. |
| CacheGate.Extraction | js/main.js:15-17 | When discovery throws, the extraction fails with its fault. Otherwise it fails exactly when some discovered lecture's page fails. |
| CacheGate.ExtractionTrace | js/main.js:15-17 | There are no events when discovery throws. Otherwise the events are a prefix of the pacing of the discovered lectures. |
| CacheGate.Extension.constructor | js/main.js:5-6 | A fresh page starts with the store's contents, no progress bar and no table. |
| CacheGate.Extension.Save | js/main.js:66-74 | The single slot is overwritten with the records and the time. |
| CacheGate.Extension.Clear | js/background.js:1-9 | The store is emptied. |
| CacheGate.Extension.Extract | js/main.js:15-17 | Discovery and then the fetcher. Returns exactly `Extraction` and its trace. A progress bar remains exactly when discovery succeeded and the fetcher threw. |
| CacheGate.Extension.Load | js/main.js:5-22 | A stored entry is shown unchanged, with no fetch. An empty store runs the extraction. On success the records are shown and saved. On failure the table and the store are unchanged. |
| CacheGate.Extension.Refresh | js/main.js:192-216 | A refresh is ignored while loading and refused within 15 s, with no change. With no table it fails and changes nothing. Otherwise the table is removed and the extraction runs. On success the new records are shown and saved. On failure no table is shown and the store is unchanged. |
| CacheGate.LoadTwice | js/main.js:5-12 | Two page loads over the same stored entry show the same table and fetch nothing. |
| CacheGate.RateLimit | js/main.js:192-216 | With an entry stored at t, a refresh at t+10 s gives a warning and no fetch. One at t+16 s performs the full extraction and, when that succeeds, shows its records. |
| Common.ConcatMapAppend | js/main.js:83-99 | The fold over a concatenation composes the folds of the two parts. This underlies the order lemmas. |
| Common.ConcatMapFailsIff | js/main.js:83-99 | The fold fails exactly when some item fails. |
| Common.ConcatMapMembers | js/main.js:83-99 | A successful fold holds exactly the elements of the items' results. |

## Left out

- Page rendering is left out, because it only draws the DOM: `injectHeader`, `injectTable`'s markup, the progress label and `generateProgressLabel`. `table` records which records are shown.
- Calling `injectTable` twice without a removal appends a second table, and this is not modelled. `table` holds the last table shown.
- HTML parsing (`DOMParser`, `innerText`, `getElementsByTagName`) is not modelled. A page or timetable is given already parsed, as the texts and attributes the script reads (`PageCell`, `TimetableCell`).
- Network failure is not modelled. `fetch` is a total function from URL to parsed page, so the `TypeError` of a rejected `fetch` has no `Failure`.
- Timing is not modelled: `async` execution, the actual pause of `sleep` and interleaving with other handlers. Pauses appear only as `Sleep` events in the trace.
- Time is the integer milliseconds of `Date.now()`, not its floating-point seconds. The check `now - then < 15` (seconds) is `now - then < 15000` (ms). The two `Date.now()` readings of a refresh (the check and the save) are two parameters.
- `window.alert` is modelled as the `Warned` outcome.
- `chrome.storage.local` is modelled as the `cache` field, a single slot. Keys other than the ones this extension writes are not modelled. With foreign keys only, the script reads `homeworks` as `undefined` and the table code throws; the model has no failure for that.
- When `#home` exists, its next sibling node is assumed to be an element, whose text is the heading. When `#home` is the last child, the script throws on `null.innerText` (js/main.js:144) for every `td`. When the next sibling is a text or comment node, its `innerText` is `undefined`, and the script throws on `undefined.substring` (js/main.js:233) for the first qualifying row with an anchor. The model has no failure for either case.
- Records.ExtractLecName / Records.ExtractDeadline: indices count Unicode code points, but JavaScript's `indexOf`, `substring` and `slice` count UTF-16 code units. The two differ when a character outside the Basic Multilingual Plane comes before the `[` or `:`, and the script can then split a surrogate pair. The model does not capture that case.
- `chrome.tabs.onUpdated` and its login-page URL test are not modelled. Only the clearing itself (`Extension.Clear`) is.
- The inner loops of `fetchHomeworks` are split into the methods `ScanCell` and `ScanPage`. The statements and their order are unchanged.
