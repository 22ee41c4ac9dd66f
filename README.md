# Pubs in England — a verified model of the dashboard's query helpers

The dashboard (`pubs.py`) loads a table of pubs, each with a name and a local
authority, and answers the questions behind its pages:

- which pubs lie in one authority, or in several;
- how many pubs each authority has;
- which pub names are the most common;
- which authorities exist, in file order;
- which slice of the authority pie chart is pulled out.

This project models those helpers and proves what each one promises.

- `counter.dfy` (module `Counter`) models the two parts of Python's
  `collections.Counter` that the helpers use.
  - A counter built from a column. It is an association list whose keys keep
    the order in which they were first seen. Each value found bumps the count
    of its key, or appends a new key.
  - `most_common(n)`. This is a stable sort by count, largest first, cut after
    `n` items. Equal counts stay in first-seen order, and `n <= 0` gives nothing.
- `pubs.dfy` (module `Pubs`) models the helpers on one fixed dataset. The
  dataset is a sequence of `Record(name, localAuthority)` in file order.
  - `filter_data`, `crawl_table` and `local_auth_filter` all re-read the
    dataset and ignore any table passed in. They are modelled as functions of
    that dataset.
  - `all_local_authorities` walks the rows in a loop. It is modelled as a
    method with a `while` loop.
  - The pie chart's `explodes` list is filled in a buffer. It is modelled as
    an array.

## Model

| member | source | states |
|---|---|---|
| Pubs.Select | pubs.py:106 | the `isin` mask keeps the rows whose authority is selected, each as often as in the data, in file order, and no other row |
| Pubs.FilterData | pubs.py:39-42 | every row returned has the chosen authority; every row of that authority is kept as often as it occurs; the rows stay in file order |
| Pubs.CrawlTable | pubs.py:104-107 | the rows whose authority is one of the chosen ones, all of them, in file order; choosing no authority gives no rows |
| Pubs.LocalAuthFilter | pubs.py:119-123 | the same selection by a list of authorities; an empty list gives no rows |
| Pubs.SelectionUnique | pubs.py:106 | at most one result meets the selection conditions, so they pin down exactly what the mask returns |
| Pubs.FilterDataIsCrawlTable | pubs.py:41 | filtering on one authority with `==` equals selecting the one-element list of that authority with `isin` |
| Pubs.SelectOneSize | pubs.py:127 | selecting one authority keeps exactly as many rows as the authority column holds that authority |
| Pubs.LocalAuthCounter | pubs.py:126-127 | one count per requested authority, in request order; count `i` is the number of rows whose authority is `authorities[i]` |
| Pubs.CounterOnFilteredRows | pubs.py:192-193 | counting the chosen authorities on the rows already filtered to them gives the same amounts as counting on the whole dataset |
| Pubs.NameCount | pubs.py:99-101 | exactly one entry per authority present; each count is that authority's exact positive number of rows; largest count first; counts sum to the number of rows |
| Counter.Distinct | pubs.py:134-136 | no value twice, and exactly the values present in the input |
| Counter.DistinctInFirstOccurrenceOrder | pubs.py:134-137 | the distinct values come in order of their first appearance |
| Counter.Bump | pubs.py:113 | counting one more value adds one to its key's count, or appends the key with count 1; no other entry changes; the total grows by one |
| Counter.Tally | pubs.py:113 | the counter's keys are the distinct values in first-seen order; each count is the value's number of occurrences; the counts sum to the input length |
| Counter.SortByCount | pubs.py:113 | for every input, the sort is a permutation of the items (same multiset, same total) and is ordered by count, largest first |
| Counter.SortRanked | pubs.py:113 | sorting items held in first-seen order gives count-descending order, with equal counts kept in first-seen order |
| Counter.SortedTally | pubs.py:113 | the sorted counter is strictly ranked, and its items are exactly the pairs of a value present and its count |
| Counter.Take | pubs.py:113 | the slice `[:n]` inside `most_common`: the first `min(n, len)` items, none when `n <= 0` |
| Counter.MostCommon | pubs.py:113 | `min(n, distinct values)` items, none when `n <= 0`; distinct keys with exact counts; counts non-increasing; ties in first-seen order; no value left out has a larger count than the last one kept, or an equal count and an earlier first appearance |
| Pubs.CommonNames | pubs.py:112-115 | fails exactly when `counts <= 0` or the data is empty; otherwise returns the triple that the three lemmas below describe |
| Pubs.TopShapeFromMostCommon | pubs.py:113-114 | names, counts and positions have equal length, at most `counts`, and fewer only when there are no more distinct names; the positions are `0 .. k-1` |
| Pubs.TopOrderFromMostCommon | pubs.py:113 | the names are distinct and present, each with its exact count; counts are non-increasing; equal counts are in first-seen order |
| Pubs.TopCompleteFromMostCommon | pubs.py:113 | no name left out beats the smallest count reported, or ties it with an earlier first appearance |
| Pubs.AllLocalAuthorities | pubs.py:130-138 | the loop returns every authority once, only authorities that occur, in order of first appearance |
| Pubs.FirstMaxIndex | pubs.py:82 | the result is the first position holding the largest amount |
| Pubs.FirstMaxUnique | pubs.py:82 | only one position can be the first position of the largest amount |
| Pubs.PieExplodes | pubs.py:81-83 | one slot per amount; a slot is pulled out exactly when it holds the first largest amount; exactly one slot is pulled out |

`Pubs.Range` (`np.arange`, pubs.py:114) is a helper of `Pubs.CommonNames`.
What it gives is stated by `Pubs.TopShapeFromMostCommon`.

## Left out

- `read_data` (pubs.py:30-35) is not modelled.
  - The file read and the Streamlit cache are I/O. The dataset is a parameter.
  - `df.ffill(..., inplace=False)` (pubs.py:32) returns a filled copy that
    the code throws away, so no cell is filled. The model does nothing here.
  - The latitude conversion uses floating point, and only the map reads that
    column.
- Columns and index: `Record` keeps only the `name` and `local_authority`
  columns. The filters (pubs.py:41, 106, 121) return whole rows with every
  column of the file (latitude, longitude and any other field) and with their
  original row-id index labels. The model returns the same rows, in the same
  order and number, reduced to those two columns and without the index.
- The following are plotting, UI or floating point and are not modelled:
  - `create_map` (pubs.py:45-64);
  - `names_bar_chart` (pubs.py:67-76);
  - the plotting part of `pie_chart` (pubs.py:80, 84-87);
  - `area_chart` (pubs.py:91-94), which also calls `pd.counts`, a function
    pandas does not have;
  - `main` (pubs.py:142-206).
- Unused table arguments: `filter_data` and `crawl_table` take a table but
  read the dataset again. The model has no separate table argument for them.
  A caller that passes a different table cannot be expressed.
- Missing values: `value_counts` drops missing authorities, and comparisons
  with a missing value are false. The model has no missing cells.
- Pubs.NameCount: pandas does not promise an order among authorities with
  equal counts. The contract states no tie order. The body puts ties in
  first-seen order.
- Counter.MostCommon: the library computes this with `heapq.nlargest`. The
  model uses a stable insertion sort, which gives the same list (ties in
  insertion order). Heap behaviour and cost are not modelled.
- Pubs.PieExplodes: the slots are the integer `0` (pubs.py:81) and, for the
  pulled-out slice, the float `0.3` (pubs.py:83). They are modelled as `false`
  and `true`.
- Pubs.PieExplodes: `pie_chart` raises on an empty `amt`, because `np.max`
  of an empty list fails (pubs.py:82). The member requires `|amt| > 0`
  instead of modelling that error. The only caller calls `pie_chart` only
  when `len(authority) > 0` (pubs.py:195), and then `amt` has one entry per
  chosen authority.
- Pubs.FirstMaxIndex: requires `|amt| > 0` for the same reason; the empty
  case raises in the source (pubs.py:82).
- Pubs.CommonNames: the Python function raises `ValueError` when there is
  nothing to unpack. The model returns `None` instead.
