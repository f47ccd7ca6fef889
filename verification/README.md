# FIPS lookup table and county-selection dashboard, in Dafny

This project models the two pieces of sequential logic in the Medicare
Advantage dashboard repository and proves properties of them.

- **The lookup-table builder** (`scripts/convertFips.js`). It reads the
  county FIPS CSV and drops rows missing a state or county code fragment. It
  builds each five-character code by padding the fragments with `'0'` to 2
  and 3 characters. It resolves the state name through a fixed table, falling
  back to the abbreviation. It keeps the first row per code, then sorts by
  state name and county name. `FipsTable.Build` is the whole pipeline, and
  its length is the count the script reports.
- **The dashboard page** (`src/app/test/page.tsx`) with its React hooks
  removed. The page state is a `Dashboard.Page` value. Every handler and
  effect is a function from one page to the next. A market-share fetch is
  returned as a `Dashboard.Request` instead of being sent. `Dashboard.Step`
  and `Dashboard.Run` make the page a state machine over user and network
  events.

The JavaScript built-ins the code relies on are modelled once, in their own
modules:

- `Seqs`: `filter`, `findIndex`, and first-occurrence deduplication.
- `Sorting`: `Array.prototype.sort`, which is stable, modelled as an insertion
  sort over an abstract three-way comparator.
- `Strings`: `padStart`, and `<`/`>` on strings, which compare character by
  character, a Dafny `char` being a Unicode code point.
- `JsMap`: a `Map` built from pairs and read back through `entries()`.

`localeCompare` is a parameter `cmp`. Wherever it matters, `cmp` is assumed to
satisfy `Sorting.Consistent`, the contract `sort` places on a comparator.
Code-point order is proved to be one such comparator (`Strings.LexCompareConsistent`).

The state table in `scripts/convertFips.js` holds 57 names: the fifty states,
the District of Columbia and six territories. `FipsTable.StateMapLookup`
reproduces all 57.

## Model

| member | source | states |
|---|---|---|
| FipsTable.StateMapLookup | scripts/convertFips.js:4-17 | every name the table yields is non-empty, so the `\|\|` fallback never replaces a found name (the 57 pairs themselves are written out in the body) |
| FipsTable.StateNameOf | scripts/convertFips.js:27 | the state name is the table's name when the abbreviation is in the table, and the abbreviation unchanged otherwise |
| FipsTable.FipsCode | scripts/convertFips.js:25 | the code is the state field of width max(\|statefp\|, 2) followed by the county field of width max(\|countyfp\|, 3); each field holds its fragment right-aligned with only zeros before it |
| FipsTable.ToEntry | scripts/convertFips.js:24-29 | state and county name are copied unchanged; the state name is the table's name when there is one and the abbreviation otherwise; the code's first field holds the zero-padded state fragment and the rest the zero-padded county fragment |
| Strings.PadStart | scripts/convertFips.js:25 | the padded string has length max(\|s\|, n), ends with `s`, and is preceded only by pad characters |
| Strings.PadStartIdempotent | scripts/convertFips.js:25 | padding an already padded fragment again changes nothing |
| FipsTable.FipsCodeShape | scripts/convertFips.js:25 | with fragments of at most 2 and 3 characters the code has 5 characters: each fragment sits right-aligned in its field, with zeros elsewhere |
| FipsTable.FipsCodeInjective | scripts/convertFips.js:25 | within those widths two rows share a code exactly when their padded fragments agree |
| FipsTable.FipsCodeCollision | scripts/convertFips.js:25 | with wider fragments, different rows ("123","4") and ("12","3004") produce the same code "123004" |
| FipsTable.AlamedaEntry | scripts/convertFips.js:24-29 | the row (6, 1, CA, Alameda) becomes the entry ("06001", CA, California, Alameda) |
| Seqs.FilterMember | scripts/convertFips.js:23 | an element is kept exactly when it occurs in the input and satisfies the predicate |
| FipsTable.NormalizedCodes | scripts/convertFips.js:23-29 | the codes present before deduplication are exactly the codes of the rows with both fragments non-empty |
| FipsTable.NormalizedFromKeptRows | scripts/convertFips.js:23-29 | every entry is the conversion of some row with both fragments non-empty |
| FipsTable.AlpineDropped | scripts/convertFips.js:23 | a row with an empty state fragment yields an empty table |
| FipsTable.BuildIgnoresDroppedRows | scripts/convertFips.js:23 | removing the rows with an empty fragment beforehand gives the same table, so such rows never contribute |
| Seqs.FindIndex | scripts/convertFips.js:30 | the result is the first index whose key matches, or -1 exactly when no key matches |
| Seqs.DedupeBy | scripts/convertFips.js:30 | no two kept elements share a key; every key of the input is still present; each kept element is the first element of the input with its key |
| Seqs.DedupeIsSubseq | scripts/convertFips.js:30 | the deduplicated sequence is a subsequence of its input |
| Seqs.DedupeIdempotent | scripts/convertFips.js:30 | deduplicating a second time changes nothing |
| Seqs.DedupeKeepsFirst | scripts/convertFips.js:30 | for every input element, the first element with its key is in the result |
| Seqs.DedupeOrdered | scripts/convertFips.js:30 | kept elements appear in the order in which their keys first occur |
| Seqs.DedupeCount | scripts/convertFips.js:30 | the deduplicated sequence has one element per distinct key |
| FipsTable.DedupeTwice | scripts/convertFips.js:30 | on the converted rows, deduplication is idempotent and yields a subsequence |
| FipsTable.CompareEntries | scripts/convertFips.js:31 | the comparison is zero exactly when both names compare equal; otherwise its sign is that of the state-name comparison, or of the county-name comparison when the state names tie |
| Sorting.SortBy | scripts/convertFips.js:31 | the sorted sequence is a permutation of its input |
| Sorting.SortSorted | scripts/convertFips.js:31 | with a consistent comparator, every element is ordered no later than every element after it |
| Sorting.SortStable | scripts/convertFips.js:31 | elements the comparator finds equal keep their input order |
| FipsTable.EntryOrderConsistent | scripts/convertFips.js:31 | comparing by state name and then county name is a consistent comparator whenever `localeCompare` is one |
| Strings.LexCompareConsistent | scripts/convertFips.js:31 | code-point order is a consistent comparator, so it is one admissible `localeCompare` |
| FipsTable.Build | scripts/convertFips.js:22-31 | the table has at most as many entries as the CSV has rows |
| FipsTable.BuildPermutes | scripts/convertFips.js:30-31 | the output is a permutation of the deduplicated entries |
| FipsTable.BuildCodes | scripts/convertFips.js:23-34 | no two output entries share a code; the output codes are exactly those of the kept rows; the reported count is the number of distinct such codes |
| FipsTable.BuildKeepsFirst | scripts/convertFips.js:30 | each output entry is the first converted row with its code |
| FipsTable.BuildSorted | scripts/convertFips.js:31 | the output is ordered by state name, and by county name among equal state names |
| FipsTable.BuildStable | scripts/convertFips.js:31 | entries that tie on both names keep the order of first appearance of their codes |
| JsMap.Entries | src/app/test/page.tsx:40-42 | the entries carry each key once, in order of first insertion, each with the value of its last insertion |
| Dashboard.States | src/app/test/page.tsx:40-42 | the selector has at most one item per table row |
| Dashboard.StatesListing | src/app/test/page.tsx:40-42 | one selector item per abbreviation in the table, in order of first appearance, named after the last row with that abbreviation |
| Dashboard.CountiesForState | src/app/test/page.tsx:45-47 | no counties while no state is chosen; every county listed is a table row of the chosen state; the list is non-empty exactly when a state is chosen and the table has a row for it |
| Dashboard.CountiesForStateRows | src/app/test/page.tsx:45-47 | no counties while no state is chosen; otherwise exactly the table rows of that state, as a subsequence in table order with multiplicities kept |
| Dashboard.StateLabel | src/app/test/page.tsx:164 | the label is the abbreviation when no item carries it, and otherwise either the abbreviation or the name of an item that carries it; it is empty only for an empty abbreviation |
| Dashboard.StateLabelFromTable | src/app/test/page.tsx:164 | the select-all label is the last matching row's state name, or the abbreviation when that name is empty or the table lacks the abbreviation |
| Dashboard.ChooseState | src/app/test/page.tsx:128-131 | the new state is chosen with an empty selection, nothing else changes, and the market-share effect sends nothing afterwards |
| Dashboard.SelectAll | src/app/test/page.tsx:154-159 | checking selects the codes of the chosen state's counties, one per county row and in table order; unchecking clears the selection; nothing but the selection changes |
| Dashboard.SelectAllExact | src/app/test/page.tsx:156 | with a state chosen, a code is selected after select-all exactly when some table row of that state carries it |
| Dashboard.ToggleCounty | src/app/test/page.tsx:173-178 | checking appends the code after the unchanged selection; unchecking leaves no copy of the code and keeps every other code; nothing but the selection changes |
| Dashboard.UncheckKeepsOthers | src/app/test/page.tsx:177 | unchecking keeps every other code with its multiplicity, in its original order |
| Dashboard.CheckThenUncheck | src/app/test/page.tsx:173-178 | checking an unselected county and unchecking it restores the page |
| Dashboard.AllCountiesSelected | src/app/test/page.tsx:84-85 | the test holds only with a state chosen and a non-empty selection; when the selection is the state's code list, it holds exactly when the table has a row of that state |
| Dashboard.SelectionEffects | src/app/test/page.tsx:84-85 | choosing a state selects it and empties the selection, and never triggers a fetch; select-all makes the length test succeed when the state has counties; clearing makes it fail |
| Dashboard.FetchEffect | src/app/test/page.tsx:60-72 | no request with an empty selection or no month range; a start later than the end (by string order) sets the ordering error and sends nothing; otherwise loading starts, data and error are cleared, and the selection and range are requested |
| Dashboard.FetchFollowsCalendar | src/app/test/page.tsx:63 | for `YYYY-MM` months the string test is the calendar test: a request goes out exactly when the start month is not later than the end month |
| Strings.MonthOrder | src/app/test/page.tsx:63 | two `YYYY-MM` strings compare as strings exactly as their (year, month) pairs compare |
| Dashboard.LatestMonthLoaded | src/app/test/page.tsx:53-56 | the range is set and the months are no longer loading; nothing else changes |
| Dashboard.LatestMonthFailed | src/app/test/page.tsx:55-56 | the error is the failure's message and the months are no longer loading; nothing else changes |
| Dashboard.LatestMonthSettles | src/app/test/page.tsx:50-72 | once the months are loaded, the effect requests exactly that range when the selection is non-empty and the start is not after the end, and requests nothing otherwise; a failure before any range exists requests nothing |
| Dashboard.EditStart | src/app/test/page.tsx:105-107 | a range exists afterwards exactly when one did before; the start becomes the input, the end is kept; nothing else changes |
| Dashboard.EditEnd | src/app/test/page.tsx:116-118 | a range exists afterwards exactly when one did before; the end becomes the input, the start is kept; nothing else changes |
| Dashboard.MonthEdits | src/app/test/page.tsx:63-117 | with a selection, setting the start to the end or the end to the start never trips the ordering check, so a request goes out |
| Dashboard.FilterContracts | src/app/test/page.tsx:74-77 | the filter throws exactly when some contract has an empty series; otherwise it keeps the contracts whose latest share qualifies |
| Dashboard.FilterContractsKeeps | src/app/test/page.tsx:74-77 | a contract is shown exactly when its latest sample has a non-null share of at least 0.02, and the shown contracts are a subsequence of the response |
| Dashboard.ThresholdExamples | src/app/test/page.tsx:76 | a latest share of 0.019 is hidden, 0.02 is shown, null is hidden even after a high earlier share, and an empty series makes the filter throw |
| Dashboard.MarketShareLoaded | src/app/test/page.tsx:73-81 | a response ends loading; without an empty series the page shows exactly the qualifying contracts, and with one it shows the thrown message and keeps the old data; nothing else changes |
| Dashboard.MarketShareFailed | src/app/test/page.tsx:80-81 | a failed request ends loading and sets its message; nothing else changes |
| Dashboard.Step | src/app/test/page.tsx:50-178 | only the state selector changes the chosen state, and it empties the selection; only the three selection controls change the selection; no control touches the shown contracts, the loading flag or the error |
| Dashboard.StepKeepsSelectionValid | src/app/test/page.tsx:128-178 | with a table whose codes are unique, every event the page offers keeps the selection free of repeats and within the chosen state's counties |
| Dashboard.RunKeepsSelectionValid | src/app/test/page.tsx:128-178 | the same holds along any sequence of offered events |
| Dashboard.BuiltTableKeepsSelectionValid | src/app/test/page.tsx:128-178 | on a table produced by the builder, the selection stays valid from the first render on |
| Dashboard.AllSelectedMeansEveryCounty | src/app/test/page.tsx:84-85 | on a valid selection, the length test holds exactly when the state has counties and every one of them is selected |
| Dashboard.LengthTestCounterexample | src/app/test/page.tsx:84-85 | on its own, the length test is not set equality: a selection with a repeated code passes while a county is missing |

## Left out

- Reading the CSV, writing the JSON file and the console message are file
  I/O. The rows are a `seq` of records, and the reported count is the length
  of `FipsTable.Build`.
- Every CSV column is taken to be a string. A row whose state or county
  column is missing altogether is treated like one whose column is empty.
- `localeCompare` depends on the locale and ICU data, so it is left abstract
  as the parameter `cmp`. Sortedness and stability are proved for any `cmp`
  that satisfies `Sorting.Consistent`.
- Sortedness is stated relative to `cmp`. A consistent comparator may tie
  distinct names; `FipsTable.BuildStable` fixes the order of tied entries.
- FipsTable.StateNameOf: an abbreviation that names an inherited
  `Object.prototype` member, such as `constructor`, finds a function in
  `stateMap` in JavaScript. The model treats such abbreviations as absent from
  the table and falls back to the abbreviation.
- Strings are sequences of Dafny `char`s, and the relational comparison works
  on them. JavaScript compares UTF-16 code units; the two agree on the ASCII
  month strings the inputs produce.
- Strings.PadStart: JavaScript pads to a length counted in UTF-16 code units,
  while the model counts characters. The two agree on every fragment without
  characters outside the Basic Multilingual Plane, which covers every
  fragment the census CSV supplies (ASCII digits). A fragment holding such a
  character can get up to one zero more per such character in the model.
- `market_share` is an IEEE-754 double in the source and a `real` here, with
  the threshold exactly 2/100. Rounding of shares near the threshold is not
  modelled.
- Dashboard.FilterContracts: the message of the thrown `TypeError` is the one
  V8 produces. Other engines word it differently.
- When React runs an effect is not modelled. `FetchRan` is an event that may
  come at any time, so the model does not capture the dependency list of
  the effect or the race between overlapping fetches.
- `fetchLatestMonth` and `fetchMarketShare` (`src/lib/api.ts`) are network
  calls. Their outcomes arrive as the events `MonthsLoaded`, `MonthsFailed`,
  `ContractsLoaded` and `ContractsFailed`.
- The login and dashboard pages under `src/app/login` and `src/app/dashboard`
  are authentication and routing through an external service. They are not
  part of this model.
- Rendering is not modelled. This covers the markup, the results table, and
  number formatting (`toLocaleString`, `toFixed`).
