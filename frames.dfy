/**
 * The tables a flight log is turned into: one per topic, an integer
 * `timestamp` column in microseconds plus named data columns whose cells
 * are floating point. Only whether a cell holds a value or NaN matters to
 * the merge, so cells are `Option<V>` over an abstract value type `V`.
 */
module Frames {
  import opened Wrappers

  /** One row: the `timestamp` cell and one cell per data column (`None` is NaN). */
  datatype Row<V> = Row(timestamp: int, cells: seq<Option<V>>)

  /**
   * A data frame: the names of its data columns in order (the `timestamp`
   * column is kept in every row, not in this list), its rows, and its row
   * index (nanoseconds once the table has been reindexed).
   */
  datatype Table<V> = Table(columns: seq<string>, rows: seq<Row<V>>, index: seq<int>)

  /** Why `concat` raises instead of returning a table. */
  datatype MergeError =
    | NoTimeline              // neither `dt` nor `on` given (IOError)
    | NoTopics                // `dt` given but the store is empty (None - float, TypeError)
    | ZeroStep                // `dt` is zero (np.arange divides by the step)
    | UndefinedRange          // the first topic in sorted order is empty, so ts_min is NaN
    | UnknownTopic(name: string)  // `on` or a merged topic is not in the store (KeyError)
    | Unsorted                // `merge_asof` finds the timeline or a merged topic out of order (ValueError)
    | Unfilled                // some cell is still NaN after filling (AssertionError)

  /** Every row has exactly `width` data cells. */
  predicate Uniform<V>(rows: seq<Row<V>>, width: nat)
  {
    forall i :: 0 <= i < |rows| ==> |rows[i].cells| == width
  }

  /** A rectangular table: one cell per data column in every row. */
  predicate WellFormed<V>(t: Table<V>)
  {
    Uniform(t.rows, |t.columns|)
  }

  /** Timestamps ascend, as `pd.merge_asof` requires of both of its sides. */
  predicate TimestampsSorted<V>(rows: seq<Row<V>>)
  {
    forall i, j :: 0 <= i < j < |rows| ==> rows[i].timestamp <= rows[j].timestamp
  }

  /** A sequence of timestamps in non-decreasing order. */
  predicate Ascending(s: seq<int>)
  {
    forall i, j :: 0 <= i < j < |s| ==> s[i] <= s[j]
  }

  /** The `timestamp` column. */
  function Timestamps<V>(rows: seq<Row<V>>): seq<int>
  {
    seq(|rows|, i requires 0 <= i < |rows| => rows[i].timestamp)
  }

  /** `pd.TimedeltaIndex(df.timestamp*1e3, unit='ns')`: microseconds to nanoseconds. */
  function NsIndex<V>(rows: seq<Row<V>>): seq<int>
  {
    seq(|rows|, i requires 0 <= i < |rows| => rows[i].timestamp * 1000)
  }

  /** Data column `j`, read down the rows (a row too short to have it reads as NaN). */
  function Column<V>(rows: seq<Row<V>>, j: nat): seq<Option<V>>
  {
    seq(|rows|, k requires 0 <= k < |rows| => if j < |rows[k].cells| then rows[k].cells[j] else None)
  }

  /** `n` NaN cells. */
  function Missing<V>(n: nat): seq<Option<V>>
  {
    seq(n, _ => None)
  }

  /** Every name in `sel` is a topic of the store (`self[topic]` raises no KeyError). */
  predicate AllKnown<V>(tables: map<string, Table<V>>, sel: seq<string>)
  {
    forall p :: 0 <= p < |sel| ==> sel[p] in tables
  }

  /** No NaN anywhere: `np.all(np.isfinite(m))`. */
  predicate AllPresent<V>(rows: seq<Row<V>>)
  {
    forall i, j :: 0 <= i < |rows| && 0 <= j < |rows[i].cells| ==> rows[i].cells[j].Some?
  }
}
