# Funding crawler history merge, modelled in Dafny

The funding crawler scrapes a public catalogue of funding programmes on every
run and keeps a history table of entry versions. Each row of that table has
an `id_hash`, the entry's content columns, `on_website_from`, and
`on_website_to`. `on_website_to` is NULL while the version is still on the
website ("open") and holds the retirement date once the version is closed.
This project models the two pure parts of `funding_crawler/helpers.py`:

- **`compute_checksum`** picks the requested fields that a scraped record
  holds, serialises them canonically and hashes them. The model proves which
  key/value pairs reach the hash. JSON serialisation (`json.dumps` with
  `sort_keys=True` and fixed separators) and SHA-256 are function-typed
  parameters. Because the keys are sorted, the serialised text depends only
  on the key/value mapping, so the serialiser takes a `map`.
- **The query that `gen_query` assembles.** `gen_comp_b`, `gen_comp_a` and
  `gen_comp_c` build its sub-queries. The model gives the query's meaning as
  functions over an in-memory table, not the SQL text:
  - `data_new`: the open rows.
  - `aggregated_data_retired`: per id, the ascending list of closing dates
    and their maximum.
  - `most_recent_data_retired`: the closed rows that reach their id's
    maximum.
  - `deleted_records`: the retired ids that have no open row.
  - The final select: a full outer join, then a left join with
    `deleted_records`.

  A table is a `seq` read as a bag, and joins keep SQL's duplicates. A NULL
  content cell is a column missing from the row's `cells` map. Dates are
  `int`. Nullable columns are `Option`.

Modules:
- `Wrappers`: `Option` and SQL `COALESCE`.
- `Sorting`: a stable insertion sort by a total preorder. It stands for
  Python's `sorted` and for `ORDER BY` inside `ARRAY_AGG`.
- `Checksum`: `compute_checksum`.
- `History`: the query.
- `HistoryProofs`: theorems about the query's result.

What the query does when the table is irregular follows from the join
semantics, and `QueryRowCount` states it for every id. Let a be the id's
number of open rows and b the number of its closed rows tied at its latest
`on_website_to`:
- If the id has an open row, it gets a·max(b,1) result rows.
- If it has no open row, it gets b·b rows. The full outer join yields b rows,
  and the left join with `deleted_records` repeats each of them b times.
The query has no tie-break between closed rows that share the latest date,
and it does not close intervals. It produces no `on_website_to` column;
closing an interval is done by code outside `helpers.py`. With at most one
open row per id and no tie (`WellFormed`), each id appears exactly once
(`QueryOneRowPerId`). Its row is the merge of that id's open row and its most
recent closed row (`QueryRowDetermined`). `deleted` is true exactly when the
id has closed rows but no open row. It is not computed against a new
snapshot.

## Model

| member | source | states |
|---|---|---|
| `Checksum.ComputeChecksum` | funding_crawler/helpers.py:12-22 | The digest is the hash of the serialisation of exactly the pairs whose key is both requested and present in the record, with the record's values |
| `Checksum.Pick` | funding_crawler/helpers.py:16 | The dict comprehension over the sorted names yields exactly the requested keys the record holds, each with the record's value; absent keys are skipped, never defaulted |
| `Checksum.SortedFields` | funding_crawler/helpers.py:16 | `sorted(fields)` is in ascending Python string order and is a permutation of the names, duplicates kept |
| `Checksum.ChecksumDependsOnlyOnRequestedFields` | funding_crawler/helpers.py:16-20 | Two records that agree on presence and value of every requested field have the same checksum |
| `Checksum.ChecksumIgnoresFieldOrder` | funding_crawler/helpers.py:16-18 | Field lists with the same names, in any order and with any repetition, give the same checksum |
| `Checksum.ChecksumIgnoresUnrequestedKey` | funding_crawler/helpers.py:16-20 | Changing or adding a key that is not requested leaves the checksum unchanged |
| `Checksum.ChecksumSkipsMissingField` | funding_crawler/helpers.py:16 | Requesting a field the record lacks leaves the checksum unchanged |
| `Checksum.LexLeTotal` | funding_crawler/helpers.py:16 | Any two field names are comparable in the order `sorted` uses |
| `Checksum.LexLeTransitive` | funding_crawler/helpers.py:16 | That order is transitive, so `sorted` is well defined on field names |
| `Sorting.Sort` | funding_crawler/helpers.py:43 | The sorted result is ascending under the given order and is a permutation of the input |
| `Sorting.SortedLastIsMax` | funding_crawler/helpers.py:43-44 | The last element of the ascending date list equals the group's `MAX`, so `last_updated` is the last of `previous_update_dates` |
| `History.DataNew` | funding_crawler/helpers.py:25-35 | `data_new` holds exactly the rows whose `on_website_to` is NULL, each as many times as it occurs in the table |
| `History.ClosedIds` | funding_crawler/helpers.py:47-50 | The groups of the aggregate are exactly the ids with a row whose `on_website_to` is not NULL |
| `History.ClosedDates` | funding_crawler/helpers.py:43-48 | A date is in an id's group exactly when some closed row of that id retired on it, and it occurs once per such row |
| `History.MaxDate` | funding_crawler/helpers.py:44 | `MAX(on_website_to)` is a date of the group and bounds every date of the group |
| `History.AggregateOf` | funding_crawler/helpers.py:43-44 | One group's list is its dates ascending with duplicates kept, and its maximum is the list's last element |
| `History.AggregatedRetired` | funding_crawler/helpers.py:38-51 | There is one aggregate per id with a closed row and none for ids with only open rows; each has the ascending closing dates and their maximum |
| `History.JoinLatest` | funding_crawler/helpers.py:59-67 | The join with the aggregate on id and `last_updated = on_website_to` keeps the table rows that satisfy that condition and no others, ties included; per id, the count is the number of its rows closed on the maximum |
| `HistoryProofs.JoinLatestMultiplicity` | funding_crawler/helpers.py:65-67 | The inner join keeps bag multiplicity: a table row that satisfies the join condition gives its retired row exactly as many times as the table holds it |
| `History.MostRecentRetired` | funding_crawler/helpers.py:54-67 | Each row of `most_recent_data_retired` is made from a closed table row at its id's latest date. It carries that row's id, content and `on_website_from`, that date as `last_updated`, and the id's closing dates in ascending order. Every such table row gives one, and an id has as many as it has closed rows at its latest date |
| `History.Matches` | funding_crawler/helpers.py:106-110 | An open row joins with every retired row of its id and with no other, and gets one joined row per retired row of its id |
| `HistoryProofs.MatchesMultiplicity` | funding_crawler/helpers.py:106-110 | The join keeps the retired side's multiplicity: an open row is paired with a retired row of its id exactly as many times as that retired row occurs |
| `History.LeftSide` | funding_crawler/helpers.py:106-110 | Each joined row from `data_new` pairs an open row with a retired row of the same id, or stands alone when its id has no retired row; every open row appears, paired with each retired row of its id |
| `History.RightOnly` | funding_crawler/helpers.py:106-110 | The full outer join's unmatched retired rows are exactly those whose id has no open row: each such row appears and no other |
| `History.FullOuterJoin` | funding_crawler/helpers.py:106-110 | No row of either side is lost: every open row and every retired row appears in some joined row |
| `History.DeletedRecords` | funding_crawler/helpers.py:84-94 | An id is in `deleted_records` exactly when it has a most recent retired row and no open row |
| `History.TagDeleted` | funding_crawler/helpers.py:102-113 | A joined row is flagged `deleted` exactly when its coalesced id is in `deleted_records` |
| `Wrappers.Coalesce` | funding_crawler/helpers.py:97-101 | `COALESCE` of two nullable values is NULL only when both are, and otherwise the first that is not NULL |
| `History.CoalesceCells` | funding_crawler/helpers.py:71-75 | The merged content holds only requested columns other than `id_hash`, and each such column is `COALESCE` of the open side's value and the retired side's value |
| `History.Project` | funding_crawler/helpers.py:96-105 | A result row has the joined row's coalesced id and its `deleted` flag, merged content, `on_website_from` preferring the retired side, and `previous_update_dates` and `last_updated` copied from the retired side, NULL exactly when there is none |
| `History.Emit` | funding_crawler/helpers.py:96-105 | Every result row is the select list applied to one row of the joins |
| `History.Query` | funding_crawler/helpers.py:70-115 | Defined for a column list with a content column; every result row holds only requested content columns, and its `previous_update_dates` and `last_updated` are NULL together |
| `HistoryProofs.LeftSideCount` | funding_crawler/helpers.py:106-110 | The `data_new` side of the join gives an id a·max(b,1) rows |
| `HistoryProofs.RightOnlyCount` | funding_crawler/helpers.py:106-110 | The unmatched retired side gives an id b rows when it has no open row, none otherwise |
| `HistoryProofs.FullOuterJoinCount` | funding_crawler/helpers.py:106-110 | The full outer join gives an id a·max(b,1) rows, plus b when it has no open row |
| `HistoryProofs.DeletedRecordsCount` | funding_crawler/helpers.py:84-94 | `deleted_records` lists an id b times when it has no open row, never otherwise |
| `HistoryProofs.TagDeletedCount` | funding_crawler/helpers.py:111-113 | The left join with `deleted_records` multiplies an id's rows by its number of entries there, at least once |
| `HistoryProofs.LatestCountPositive` | funding_crawler/helpers.py:38-67 | An id has a closed row at its latest date exactly when it has a closed row at all |
| `HistoryProofs.QueryRowCount` | funding_crawler/helpers.py:70-115 | The number of result rows of an id is b·b with no open row, else a·max(b,1) |
| `HistoryProofs.QueryIds` | funding_crawler/helpers.py:96-113 | The result's ids are exactly the ids with an open row together with the ids with a closed row |
| `HistoryProofs.QueryOneRowPerId` | funding_crawler/helpers.py:26-113 | With at most one open row per id and a unique latest closed row, each such id has exactly one result row and no other id has any |
| `HistoryProofs.QueryDeletedFlag` | funding_crawler/helpers.py:84-105 | A result row is `deleted` exactly when its id has no open row; such an id has a closed row, and an id with an open row is never deleted |
| `HistoryProofs.QueryAggregateColumns` | funding_crawler/helpers.py:99-100 | `previous_update_dates` and `last_updated` are the id's aggregate, and NULL when the id has no closed row |
| `HistoryProofs.QueryCoalescing` | funding_crawler/helpers.py:71-101 | Each result row merges an open row of its id and a most recent closed row of its id, whichever exist. Every column but `id_hash` takes the open value when it is non-NULL, else the retired one. `on_website_from` prefers the retired value |
| `HistoryProofs.SourcesUnique` | funding_crawler/helpers.py:26-67 | With at most one open row per id and no tie at the maximum, an id's open row and most recent closed row are unique |
| `HistoryProofs.QueryRowDetermined` | funding_crawler/helpers.py:71-113 | In such a table the result row of an id is the merge of that id's open row and its most recent closed row |

## Left out

- `get_hits_count` (funding_crawler/helpers.py:142-174) is left out. It does network I/O, parses HTML and sleeps with random backoff.
- `pydantic_to_polars_schema` (funding_crawler/helpers.py:125-139) is left out. It maps Python type annotations to polars dtypes, which are foreign library types.
- `gen_license` (funding_crawler/helpers.py:118-122) is left out. It is a fixed text template.
- The SQL text and the engine that runs it are not part of this model. The query's meaning is modelled over typed rows instead. The result is a bag: the model emits its rows in one fixed order, and every theorem is about membership and counts, not order.
- `json.dumps` and SHA-256 (with the UTF-8 `encode`) are parameters. Nothing is proved about their output beyond what their input is.
- `id_hash` is never NULL in the model. SQL joins never match a NULL key, and that case is not modelled.
- A column named twice in `columns` would give duplicate SQL result columns. The model's `cells` map has one entry per name.
- `Query` requires a column other than `id_hash` in `columns`. With none, every select list of the generated text has an empty slot between commas, and the text is not a valid query.
- A column in `columns` that the table does not have makes the generated query fail to bind. The model cannot tell it from a column that is NULL in every row, and reads it as NULL.
- `columns` names content columns. `id_hash`, `on_website_from` and `on_website_to` are separate fields of a row.
- Closing open rows for entries missing from a new snapshot happens outside `helpers.py` and is not modelled. The query only reads the table it is given.
- troubleshooting.py, selenium_exploration/scraping.py and selenium_exploration/analyze_scraping.py are not part of this model. They do HTTP fetching, browser automation and ad-hoc diff printing.
