# Arcade session export and canonical-length filter

This project models the two pieces of logic in the arcade session tools that have a
precise meaning:

- **`write_to_csv`** (main.py): the list of focus sessions fetched from the history API
  is sorted in place by its `createdAt` timestamp, oldest first. A `Z` in the timestamp
  is read as the UTC offset `+00:00`. Then a fixed header row is written, followed by one
  six-field row per session in the sorted order. A field the session lacks is written
  as the empty text.
- **`filter_sessions`** (app.py): the dashboard keeps only the sessions whose `Time` is
  not the preset length of 60 minutes, in their original order. The route then uses the
  full frame and the reduced frame side by side.

Modules:

- `Wrappers` (wrappers.dfy): `Option` and `Result`.
- `StableSorting` (stable_sort.dfy): what Python's `list.sort(key=...)` promises. It
  sorts in ascending order of key and is stable. The reference definition is a
  functional insertion sort, `StableSort`. Lemmas show that it only permutes, that it
  sorts and that it keeps each key's elements in input order. They also show that any
  sorted rearrangement with that stability property equals `StableSort`. So the model
  gives the same order as CPython's timsort.
- `Decimal` (decimal.dfy): `str` of an integer, which is the text `csv.writer` writes
  for the integer fields, and its inverse.
- `SessionExport` (session_export.dfy): main.py's `write_to_csv`. A session is the
  JSON object the API returns, a map from key to JSON value. The method `WriteToCsv`
  works on an `array` of sessions. It first computes every key in a loop
  (`ComputeKeys`), as CPython does before moving anything. It then insertion-sorts
  the sessions in place, with their keys moving in lockstep (`SortByKeys`). Last, it
  builds the rows in a loop (`EmitRows`).
- `CanonicalFilter` (canonical_filter.dfy): app.py's `filter_sessions`, modelled as
  pandas evaluates `df[df['Time'] != 60]`. A boolean column (`NotCanonicalMask`) is
  built first, then the rows it marks are selected (`Select`).

Parsing a timestamp is a parameter, `parse: string -> Option<int>`. It stands for
`datetime.fromisoformat`: it maps the text to an instant, or gives `None` where that
call raises. The sort key of a session is `parse(ReplaceZ(createdAt))`. Three cases make
the key computation fail, and with it `write_to_csv`:

- `createdAt` is missing: `KeyError`.
- `createdAt` is not a string: `AttributeError` from `.replace`.
- The parser refuses the text: `ValueError`.

CPython computes all keys before it reorders anything. It puts the list back unchanged
when a key raises, so on that path the model leaves the array as it was and writes no
row.

Two consequences of this:

- An unparseable `createdAt` aborts `write_to_csv` before any row is written.
- Rows are written in sorted order, not in input order.

## Model

| member | source | states |
|---|---|---|
| `SessionExport.WriteToCsv` | main.py:29-44 | If some key raises, the result is the error of the first failing session and the array is unchanged. Otherwise the array holds `StableSort` of its old contents by parsed `createdAt`, and the rows are the header followed by one `RowOf` per sorted session, `n + 1` rows in all |
| `SessionExport.SortKey` | main.py:31 | The key lambda `datetime.fromisoformat(x['createdAt'].replace('Z', '+00:00'))`: it succeeds exactly when `createdAt` is present, is a string and parses after the `Z` replacement, and then its value is that parsed instant; a missing `createdAt` is the `KeyError` case. `ZuluSameKey` and `SortKeysFirstFailure` build on it |
| `SessionExport.ComputeKeys` | main.py:31 | Computes the keys of all sessions front to back: either every key, in list order, or the error of the first session whose key raises |
| `SessionExport.SortKeys` | main.py:31 | The keys exist exactly when every session's key computation succeeds, and then key `i` is session `i`'s parsed instant |
| `SessionExport.SortKeysFirstFailure` | main.py:31 | When computing the keys fails, the error is the one of the first session whose key raises; every earlier session's key succeeds |
| `SessionExport.InsertAt` | main.py:31 | One insertion pass: `a[i]` moves into the sorted prefix exactly where `Insert` puts it, the suffix is untouched, and each key stays with its session |
| `SessionExport.SortByKeys` | main.py:31 | The in-place sort leaves `StableSort(old(a[..]), key)` in the array, with `keys[m]` still the key of `a[m]` |
| `SessionExport.InsertAtPosition` | main.py:31 | `Insert` places `x` right after the last element whose key is at most `x`'s |
| `SessionExport.ReplaceZ` | main.py:31 | `.replace('Z', '+00:00')`: the text never gets shorter. `ReplaceZRemovesZ`, `ReplaceZAppend` and `ZuluIsUtc` pin down what it does |
| `SessionExport.ReplaceZRemovesZ` | main.py:31 | The text given to the parser holds no `Z`, and a text without `Z` is passed through unchanged |
| `SessionExport.ReplaceZAppend` | main.py:31 | The `Z` replacement works piece by piece: replacing in `t + u` equals replacing in `t` and in `u` |
| `SessionExport.ZuluIsUtc` | main.py:31 | A timestamp written with `Z` and the same timestamp written with `+00:00` reach the parser as the same text |
| `SessionExport.ZuluSameKey` | main.py:31 | Sessions that differ only in writing UTC as `Z` or as `+00:00` get the same sort key and the same instant, whatever the parser |
| `SessionExport.SortedSessionsKeyed` | main.py:31 | After a successful sort the list is a permutation of the input, and every session in it has a computable key |
| `SessionExport.SortedSessionsAscending` | main.py:30-31 | After a successful sort, an earlier session never has a later parsed `createdAt` than a later one |
| `SessionExport.SortedSessionsStable` | main.py:31 | Sessions with the same parsed instant keep their original relative order |
| `SessionExport.CreatedAtNeverDefault` | main.py:31-38 | A session that got through the key computation has a `createdAt` string, and its row's first cell is that string, never the `''` default |
| `SessionExport.SortedRowsCreatedAt` | main.py:31-38 | After a successful sort, the data row written for the `i`-th sorted session starts with that session's `createdAt` string |
| `SessionExport.EmitRows` | main.py:35-44 | The rows are the header `Created At, Time, Elapsed, Goal, Ended, Work`, then exactly one row per session in list order, `n + 1` rows in all |
| `SessionExport.RowOf` | main.py:37-44 | A data row has six cells; cell `j` is the session's value for the `j`-th of `createdAt, time, elapsed, goal, ended, work` |
| `SessionExport.CellText` | main.py:37-44 | The text `csv.writer` writes for a value: a string as itself, an integer as a decimal text that reads back as that integer, `True`/`False` for a boolean, the empty text for `None` |
| `SessionExport.Cell` | main.py:38-43 | A key the session lacks is written as the empty text |
| `Decimal.IntText` | main.py:39-40 | `str` of an integer: a non-empty text that starts with `-` exactly when the integer is negative. `IntTextRoundTrip` and `IntTextInjective` pin down the digits |
| `Decimal.IntTextRoundTrip` | main.py:39-40 | The text written for an integer field reads back as the same integer |
| `Decimal.IntTextInjective` | main.py:39-40 | Distinct integers are written as distinct texts |
| `Decimal.DigitsRoundTrip` | main.py:39-40 | The decimal digits written for a natural number read back as that number |
| `StableSorting.StableSort` | main.py:31 | The reference order of `list.sort(key=...)`, a stable insertion sort with as many elements as its input. `StableSortPermutes`, `StableSortSorted`, `StableSortKeepsKeyClasses` and `StableSortCharacterized` pin it down |
| `StableSorting.StableSortPermutes` | main.py:31 | The sort only rearranges: same elements, each as often as before |
| `StableSorting.StableSortSorted` | main.py:31 | The sort's output is in ascending order of key |
| `StableSorting.StableSortKeepsKeyClasses` | main.py:31 | Stability: for every key, the elements with that key keep their input order |
| `StableSorting.InsertPermutes` | main.py:31 | One insertion adds exactly the inserted element |
| `StableSorting.InsertSorted` | main.py:31 | Inserting into a sorted sequence keeps it sorted |
| `StableSorting.InsertKeyClass` | main.py:31 | Inserting `x` appends it to its own key class and changes no other class |
| `StableSorting.SortedStableUnique` | main.py:31 | Two sorted sequences with the same key classes are equal, so a stable sort's result is unique |
| `StableSorting.StableSortCharacterized` | main.py:31 | Any sorted rearrangement of the input that keeps every key class in input order equals `StableSort` of the input, whatever algorithm produced it |
| `CanonicalFilter.FilterSessions` | app.py:19-20 | `filter_sessions(df)` = `df[df['Time'] != 60]`, never longer than `df`. The `Filter*` lemmas below state what it keeps and drops |
| `CanonicalFilter.FilterSound` | app.py:19-20 | No row returned by `filter_sessions` has `Time == 60` |
| `CanonicalFilter.FilterCounts` | app.py:19-20 | Each row with `Time != 60` is kept exactly as often as it occurs in the input; a row with `Time == 60` never is |
| `CanonicalFilter.FilterComplete` | app.py:19-20 | Every input row with `Time != 60` appears in the output |
| `CanonicalFilter.FilterIsSubsequence` | app.py:19-20 | The output is a subsequence of the input, in the input's order |
| `CanonicalFilter.FilterLength` | app.py:19-20 | The output is shorter than the input by exactly the number of rows with `Time == 60` |
| `CanonicalFilter.FilterKeepsLength` | app.py:19-20 | The output is at most as long as the input, and equally long exactly when no input row has `Time == 60` |
| `CanonicalFilter.FilterIdentity` | app.py:19-20 | The output equals the input exactly when no input row has `Time == 60` |
| `CanonicalFilter.FilterIdempotent` | app.py:19-20 | Filtering an already filtered frame returns it unchanged |
| `CanonicalFilter.FilterAppend` | app.py:19-20 | Filtering two frames placed one after the other equals filtering each frame and joining the results |
| `CanonicalFilter.FilterCons` | app.py:19-20 | The mask-and-select filter keeps the first row exactly when its `Time` is not 60, then filters the rest |
| `CanonicalFilter.NotCanonicalMask` | app.py:20 | The boolean column `df['Time'] != 60` has one entry per row |
| `CanonicalFilter.Select` | app.py:20 | Boolean selection never returns more rows than the frame holds |
| `CanonicalFilter.Index` | app.py:24-26 | The route keeps the full frame, unchanged, next to the filtered one, which is never longer. `IndexViews` states the rest |
| `CanonicalFilter.IndexViews` | app.py:24-26 | The route's full frame is its input, unchanged. The filtered frame next to it is an order-preserving subsequence of it with no `Time == 60` row |

## Left out

- Fetching the sessions over HTTP, its status-code handling, and loading the token and
  user id from the environment or a config file (main.py:7-27): network and
  configuration I/O.
- Opening the output file and `csv.writer`'s quoting, line endings and encoding
  (main.py:33-34): rows are modelled as lists of cell texts.
- ISO-8601 parsing itself: `datetime.fromisoformat` is the parameter `parse`, into an
  integer instant. Python's error when comparing naive and aware datetimes mid-sort is
  not modelled. Such an error would leave the list partly reordered.
- JSON numbers other than integers, and nested JSON values in a session field. `str`
  of a float, list or object is not modelled; strings, integers, booleans and `null`
  are.
- `Decimal.ParseInt` reads back only the text `IntText` writes. It is not Python's
  `int()`, which also accepts signs, spaces and leading zeros.
- api/main.py's `write_to_csv`: an unsorted, truncated copy of main.py's version.
- visualize_sessions.py, and app.py's `read_csv`, `preprocess_data`, Flask route and
  plotly figures: file reading, `pd.to_datetime` and rendering. `CanonicalFilter` takes
  the frame after preprocessing, with `Created At` already an instant.
- pandas specifics of the filter: `Time` is an integer (no missing value, no NaN), and
  the index labels the selection carries over are not modelled, only the row order.
