# px4tools ULog topic store, merge and root selection

This project models the non-numeric core of `px4tools/ulog.py`, the module
that turns a PX4 flight log into pandas data frames:

- **Column naming.** `read_ulog` turns every `[` and `]` in a CSV header
  into `_` (module `ColumnNames`).
- **Building the topic store.** `PX4MessageDict.__init__` renames every
  column except `timestamp` to `t_<topic>__f_<column>`. It then reindexes
  each topic's table at `timestamp * 1000` nanoseconds. This is the
  constructor of the class `MessageStore.MessageDict`.
- **`PX4MessageDict.concat`.** This is modelled as
  `MessageStore.MessageDict.Concat`, proved equal to the specification
  function `MessageStore.Merge`. It runs in four steps:
  1. It chooses a timeline (module `Timeline`):
     - with `dt`, an `np.arange` between the least and the greatest
       timestamp over the store, found by a loop over the sorted topic
       names;
     - otherwise, with `on`, that topic's timestamps;
     - otherwise it raises.
  2. It joins every selected topic onto the timeline with a backward
     `merge_asof` (module `AsOf`).
  3. It fills the gaps in place with `ffill`, `bfill` and `pad` over an
     array of rows (module `Fill`).
  4. It asserts that no NaN is left.
- **`_smallest_positive_real_root`**, and how the Allan deviation analysis
  chains three calls to it, each searching above the previous result
  (module `RootSelection`).

How the model represents the source's data:

- **Tables.** A table is a `Frames.Table`. It holds its data column names,
  its rows and its index.
- **Rows.** A row holds the integer `timestamp` in microseconds and one
  cell per data column.
- **Cells and NaN.** A cell is `Option<V>`, where `None` is NaN. `V` is
  abstract, because the merge only asks whether a value is present.
- **Errors.** Every exception `concat` can raise is a `Frames.MergeError`.
- **Roots.** Roots are pairs of reals. A NaN result or bound is `None`.
- **Sorting.** `sorted` is an insertion sort by a total preorder
  (`Sorting`), used for topic names and for real parts.

## Model

| member | source | states |
|---|---|---|
| ColumnNames.SanitizeColumns | px4tools/ulog.py:375-379 | the renamed header list has one entry per CSV column, each the sanitised original |
| ColumnNames.SanitizeAt | px4tools/ulog.py:360-365 | sanitising keeps the length; each `[` or `]` becomes `_` and every other character stays in place |
| ColumnNames.SanitizeRemovesBrackets | px4tools/ulog.py:375-379 | no sanitised column name contains a bracket |
| ColumnNames.SanitizeKeepsClean | px4tools/ulog.py:375-379 | a name without brackets is left unchanged |
| ColumnNames.SanitizeIdempotent | px4tools/ulog.py:375-379 | sanitising twice is the same as sanitising once |
| ColumnNames.QualifiedNameRoundTrip | px4tools/ulog.py:293-296 | `timestamp` keeps its name; any other column becomes `t_<topic>__f_<column>`; the column's name can be recovered from the new name |
| ColumnNames.QualifiedNamesDistinct | px4tools/ulog.py:296 | for topic names without `__`, two qualified names are equal only for the same topic and column, or when both are `timestamp` |
| ColumnNames.QualifiedNamesCanClash | px4tools/ulog.py:296 | without that condition names collide: topic `a` column `_f_b` and topic `a__f` column `b` share a name |
| ColumnNames.StoredNameHasNoBrackets | px4tools/ulog.py:375-379 | a column read from a CSV and then qualified with a bracket-free topic name contains no bracket |
| MessageStore.QualifyTable | px4tools/ulog.py:291-298 | the inner loop of `__init__` yields the qualified and reindexed table of one topic |
| MessageStore.QualifyKeeps | px4tools/ulog.py:290-298 | qualifying keeps the rows, the column count and the column order; each original name can be read back; the index is `timestamp * 1000`; rectangular tables stay rectangular; a table without a `timestamp` data column gets none |
| MessageStore.QualifyDisjoint | px4tools/ulog.py:296 | two different topics without `__` in their names never share a qualified data column |
| MessageStore.MessageDict.constructor | px4tools/ulog.py:288-299 | the store keeps the topics in the given order; each topic's table is the qualified, reindexed input table; the store invariant holds (distinct keys, rectangular tables, no `timestamp` among the data columns) |
| MessageStore.MessageDict.TimestampBounds | px4tools/ulog.py:316-322 | the loop over the sorted topic names leaves `(ts_min, ts_max)` equal to the fold `Timeline.RangeFold` |
| MessageStore.MessageDict.DtRange | px4tools/ulog.py:313-323 | the `dt` branch returns `Timeline.DtTimeline`: no topics, a zero step, or an undefined range raise; otherwise it returns the `arange` |
| MessageStore.MessageDict.MergeTimeline | px4tools/ulog.py:313-327 | the timeline is the `dt` range when `dt` is given, else the timestamps of `on`, else `IOError`; an unknown `on` raises `KeyError` |
| MessageStore.MessageDict.JoinTopics | px4tools/ulog.py:329-337 | the merge loop raises the first failure in selection order (an unknown topic, or an unsorted timeline or topic); otherwise it returns the frame `AsOf.JoinAll` describes |
| MessageStore.FillMerged | px4tools/ulog.py:338-344 | the in-place `ffill`, `bfill`, `pad` and the `isfinite` assertion give `Finish`: the filled table reindexed in nanoseconds, or `AssertionError` |
| MessageStore.MessageDict.Concat | px4tools/ulog.py:301-344 | `concat(topics, on, dt)` returns exactly `Merge(keys, tables, topics, on, dt)` |
| MessageStore.JoinCheck | px4tools/ulog.py:333-337 | when the merge loop raises nothing, every selected topic is in the store |
| MessageStore.JoinCheckNoneIff | px4tools/ulog.py:333-337 | the merge loop raises nothing iff every selected topic exists and has sorted timestamps, and the timeline is sorted whenever a topic is merged |
| MessageStore.JoinCheckPrefix | px4tools/ulog.py:333-337 | an error raised on an earlier topic is the error of the whole loop; later topics are never looked at |
| MessageStore.FinishShape | px4tools/ulog.py:330-344 | when filling succeeds, the joined frame keeps the timeline as its timestamps and the selected topics' columns; it is rectangular and NaN-free; its index is in nanoseconds |
| MessageStore.FinishCell | px4tools/ulog.py:330-342 | after filling, each cell of the joined frame is the last non-NaN as-of value of its topic's column at or before that timeline entry, and when there is none, the first one after it |
| MessageStore.FinishUnfilledIff | px4tools/ulog.py:337-343 | filling the joined frame leaves a NaN iff the timeline is non-empty and some selected column has no as-of value at any timeline entry |
| MessageStore.MergeTimelineChoice | px4tools/ulog.py:313-327 | without `dt` and `on` the merge raises `IOError`; an unknown `on` raises `KeyError`; `on` is ignored whenever `dt` is given |
| MessageStore.MergeShape | px4tools/ulog.py:301-344 | a successful merge has one row per timeline entry, with that entry as its timestamp; its columns are those of the selected topics in merge order; it is rectangular and NaN-free; its index is the timestamp in nanoseconds |
| MessageStore.MergedCell | px4tools/ulog.py:330-342 | each merged cell is the last non-NaN as-of value of the topic's column at or before that timeline entry, and when there is none, the first one after it |
| MessageStore.MergeUnfilledIff | px4tools/ulog.py:337-343 | the final assertion fails iff the timeline is non-empty and some column of some selected topic has no as-of value (a non-NaN cell in the last row at or before the entry) at any timeline entry |
| AsOf.AsOfIndex | px4tools/ulog.py:337 | `merge_asof` takes the last row whose timestamp is at most `t`; when there is none, it takes no row |
| AsOf.AsOfIndexSorted | px4tools/ulog.py:337 | on sorted rows, exactly the rows up to the chosen one are at or before `t` |
| AsOf.JoinAllShape | px4tools/ulog.py:330-337 | the joined frame's timestamp column is the timeline; its columns are the selected topics' columns in merge order; it is rectangular |
| AsOf.MergeAsOfKeeps | px4tools/ulog.py:337 | a merge keeps every column already in the frame |
| AsOf.MergeAsOfAppends | px4tools/ulog.py:337 | a merge appends each column of the topic as seen from each timestamp of the frame |
| AsOf.JoinAllColumn | px4tools/ulog.py:333-337 | column `j` of the `p`-th selected topic in the joined frame is that topic's as-of column over the timeline |
| AsOf.ColumnOwner | px4tools/ulog.py:333-337 | every column of the joined frame is column `j` of some selected topic `p`, at that topic's offset |
| Fill.ForwardFilled | px4tools/ulog.py:340 | forward filling keeps the number of rows and every timestamp |
| Fill.BackwardFilled | px4tools/ulog.py:341 | backward filling keeps the number of rows and every timestamp |
| Fill.LastPresent | px4tools/ulog.py:340 | the last non-NaN position at or before `i`; when there is none, every position up to `i` is NaN |
| Fill.FirstPresent | px4tools/ulog.py:341 | the first non-NaN position at or after `i`; when there is none, every position from `i` on is NaN |
| Fill.ForwardFilledAt | px4tools/ulog.py:340 | after `ffill` a cell holds the column's last value at or before its row |
| Fill.BackwardFilledAt | px4tools/ulog.py:341 | after `bfill` a cell holds the column's first value at or after its row |
| Fill.FilledAt | px4tools/ulog.py:340-342 | after `ffill`, `bfill` and `pad`, a cell holds the last non-NaN value at or before its row, and when there is none, the first one after it |
| Fill.FilledColumn | px4tools/ulog.py:340-342 | after the three fills, cell `i` of a column is that column's last non-NaN value at or before row `i`, else its first one after it |
| Fill.FilledMissingIff | px4tools/ulog.py:340-343 | a cell is still NaN after filling iff its whole column was NaN |
| Fill.FilledCompleteIff | px4tools/ulog.py:340-343 | the filled table has no NaN iff the table is empty or no column is NaN all the way down |
| Fill.FillForward | px4tools/ulog.py:340 | the in-place `ffill` over the array leaves `ForwardFilled` of the old rows |
| Fill.FillBackward | px4tools/ulog.py:341 | the in-place `bfill` over the array leaves `BackwardFilled` of the old rows |
| Timeline.MinTimestamp | px4tools/ulog.py:317 | `min()` is NaN exactly for an empty table; otherwise it is a timestamp of the table that no timestamp undercuts |
| Timeline.MaxTimestamp | px4tools/ulog.py:318 | `max()` is NaN exactly for an empty table; otherwise it is a timestamp of the table that no timestamp exceeds |
| Timeline.RangeFoldBounds | px4tools/ulog.py:316-322 | the loop leaves `None` only with no topics, and NaN exactly when the first topic visited is empty; otherwise it leaves the least and greatest timestamps over all topics visited |
| Timeline.SortedKeys | px4tools/ulog.py:316 | `sorted(self.keys())` visits exactly the keys, each as often as it occurs |
| Timeline.SortedKeysHead | px4tools/ulog.py:316 | the first topic visited precedes every topic in string order |
| Timeline.ArangeTicks | px4tools/ulog.py:323 | with a positive step, `arange` yields every tick `start + i*step` below `stop` and no more |
| Timeline.TicksAscending | px4tools/ulog.py:323 | those ticks start at `start`, ascend strictly, and lie exactly one step apart |
| Timeline.ArangeDescendingEmpty | px4tools/ulog.py:323 | with a negative step from a lower start, `arange` is empty |
| Timeline.DtTimelineErrors | px4tools/ulog.py:313-323 | the `dt` timeline raises for an empty store or a zero step; otherwise it raises exactly when the first topic in string order is empty |
| Timeline.DtTimelineBounds | px4tools/ulog.py:316-323 | a successful `dt` timeline is the `arange` between the two bounds the loop found |
| Timeline.DtTimelineTicks | px4tools/ulog.py:313-323 | a successful `dt` timeline starts at the earliest timestamp over the store and ascends strictly in steps of `dt`; every tick lies below the latest timestamp minus `dt`; for a negative `dt` it is empty |
| Sorting.Sort | px4tools/ulog.py:398 | `sorted` returns a permutation of its input |
| Sorting.SortSorted | px4tools/ulog.py:398 | under a total preorder, the result of `sorted` is in order |
| Sorting.InsertSorted | px4tools/ulog.py:398 | inserting into a list in order gives a list in order |
| Sorting.SortedHeadIsLeast | px4tools/ulog.py:398-400 | the head of a sorted non-empty list is an element of it and precedes every element |
| Sorting.LexLeIsTotalPreorder | px4tools/ulog.py:316 | string order is total and transitive |
| RootSelection.RealPartsAbove | px4tools/ulog.py:395-398 | the filtered real parts are exactly those of roots with zero imaginary part above `min_val`; none remain iff no root qualifies |
| RootSelection.SmallestRootFound | px4tools/ulog.py:389-403 | when some root qualifies, the result is the least qualifying real part if it is at most `max_val`, else NaN |
| RootSelection.SmallestRootDefault | px4tools/ulog.py:389-403 | when no root qualifies, the result is `0` if `0` lies between the bounds (a NaN `min_val` bounds nothing), else NaN |
| RootSelection.SmallestRootBounds | px4tools/ulog.py:389-403 | a defined result lies between the bounds; a nonzero one is a qualifying real part strictly above a defined `min_val` |
| RootSelection.ChainLink | px4tools/ulog.py:448 | a stage after a NaN stage returns `0`; a defined result lies in `[0, 5]` and at or above the previous result; a nonzero one lies strictly above it |
| RootSelection.AllanChain | px4tools/ulog.py:440-456 | every defined `log_tau` lies in `[0, 5]` and no stage is below a defined predecessor; a nonzero stage lies strictly above a defined predecessor; a stage after a NaN stage is `0` |

## Behaviour as written

The model follows the code. In these places the code does something other
than its documentation or its names suggest:

- **`dt` wins.** When both `dt` and `on` are given, `dt` is used and `on` is
  ignored (`MergeTimelineChoice`).
- **Range over every topic.** The `dt` range runs over every topic of the
  store, not only the selected ones. Topics are visited in string order.
  - If the first topic visited is empty, `ts_min` becomes NaN and stays NaN,
    so `np.arange` raises (`DtTimelineErrors`).
  - Empty topics visited later are skipped.
- **Merge order.** Topics merge in the caller's order, or in the store's
  insertion order, not sorted.
- **Exact `isreal`.** `np.isreal` demands an imaginary part of exactly zero.
- **No root is not NaN.** When no root qualifies, the result is `0` rather
  than NaN, provided `0` lies within the bounds.
  - A NaN lower bound from a failed earlier Allan stage lets no root
    qualify, so the next stage returns `0` (`ChainLink`).
- **Unsorted timestamps raise.** `merge_asof` raises on unsorted keys. The
  model returns the `Unsorted` error instead of assuming every topic is
  sorted.

## Left out

- File handling in `read_ulog` is not modelled: the temporary directory, the pyulog CSV conversion, globbing, `read_csv` and the removal of the directory. It is I/O through foreign libraries. The same goes for how topic names are derived from file names and for the pickle cache.
- The `plot_*` functions, the Allan statistic, the polynomial fit and its roots, the σ formulas, `plot_autocorrelation` and the estimator numerics are not modelled. They are floating-point numerics in numpy and pandas. The root lists are inputs to the model instead.
- The `verbose` prints are left out; they are console output only.
- `dt` is a whole number of microseconds, given as the step `dt*1e6`. Fractional microsecond steps and float rounding in `np.arange` are not modelled.
- Timestamps are unbounded integers. int64 overflow, and the precision lost when `timestamp*1e3` goes through a float, are not modelled.
- Cells only record present or NaN. Infinite values, which `np.isfinite` also rejects, are not distinguished.
- Roots are finite. The `not np.isfinite(res)` test never fires in the model.
- A table always has a `timestamp` column, kept in every row. Tables without one cannot be represented.
- MessageStore.MergeShape: when two merged columns share a name, pandas appends `_x`/`_y` suffixes to them; the model keeps the plain names. This happens when a topic is selected twice, or in a clash like `QualifiedNamesCanClash`. The cells are the same either way.
- MessageStore.MessageDict.constructor: the input dictionary is a key order plus a map. The constructor requires rectangular tables, which pandas guarantees, and keeps each table's `timestamp` column in its rows rather than among its data columns, so the input lists only data columns.
