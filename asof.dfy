/**
 * The joining half of `PX4MessageDict.concat`: a frame holding only the
 * timeline, onto which each selected topic is merged in turn with
 * `pd.merge_asof(m, df, 'timestamp')` (direction 'backward', exact matches
 * allowed).
 */
module AsOf {
  import opened Wrappers
  import opened Frames

  /** The row `merge_asof` takes for timestamp `t`: the last row whose timestamp is at most `t`. */
  function AsOfIndex<V>(rows: seq<Row<V>>, t: int): (k: Option<nat>)
    ensures k.Some? ==> k.value < |rows| && rows[k.value].timestamp <= t
    ensures k.Some? ==> forall m :: k.value < m < |rows| ==> rows[m].timestamp > t
    ensures k.None? ==> forall m :: 0 <= m < |rows| ==> rows[m].timestamp > t
  {
    if rows == [] then None
    else if rows[|rows| - 1].timestamp <= t then Some(|rows| - 1)
    else AsOfIndex(rows[..|rows| - 1], t)
  }

  /** On sorted rows, every row up to the as-of row is at or before `t`. */
  lemma AsOfIndexSorted<V>(rows: seq<Row<V>>, t: int)
    requires TimestampsSorted(rows)
    ensures forall m :: 0 <= m < |rows| ==>
      (rows[m].timestamp <= t <==> (AsOfIndex(rows, t).Some? && m <= AsOfIndex(rows, t).value))
  {
  }

  /** The cells `df` contributes to the row at timestamp `t`: those of its as-of row, or NaN throughout. */
  function AsOfCells<V>(df: Table<V>, t: int): seq<Option<V>>
  {
    match AsOfIndex(df.rows, t)
    case Some(k) => df.rows[k].cells
    case None => Missing(|df.columns|)
  }

  /** Data column `j` of `df` as the row at timestamp `t` receives it. */
  function AsOfValue<V>(df: Table<V>, t: int, j: nat): Option<V>
  {
    match AsOfIndex(df.rows, t)
    case Some(k) => if j < |df.rows[k].cells| then df.rows[k].cells[j] else None
    case None => None
  }

  /** Data column `j` of `df`, joined onto every timestamp of the timeline. */
  function AsOfColumn<V>(df: Table<V>, timeline: seq<int>, j: nat): seq<Option<V>>
  {
    seq(|timeline|, i requires 0 <= i < |timeline| => AsOfValue(df, timeline[i], j))
  }

  /** A fresh `RangeIndex`. */
  function Range(n: nat): seq<int>
  {
    seq(n, i => i)
  }

  /** `pd.DataFrame(data=timestamps, columns=['timestamp'])`. */
  function TimelineFrame<V>(timeline: seq<int>): Table<V>
  {
    Table([], seq(|timeline|, i requires 0 <= i < |timeline| => Row(timeline[i], [])), Range(|timeline|))
  }

  /** `pd.merge_asof(m, df, 'timestamp')`: the rows of `m`, each extended by the cells of its as-of row in `df`. */
  function MergeAsOf<V>(m: Table<V>, df: Table<V>): Table<V>
  {
    Table(
      m.columns + df.columns,
      seq(|m.rows|, i requires 0 <= i < |m.rows| =>
        Row(m.rows[i].timestamp, m.rows[i].cells + AsOfCells(df, m.rows[i].timestamp))),
      Range(|m.rows|))
  }

  /** The loop `for topic in topics: m = pd.merge_asof(m, self[topic], 'timestamp')`. */
  function JoinAll<V>(timeline: seq<int>, tables: map<string, Table<V>>, sel: seq<string>): Table<V>
    requires AllKnown(tables, sel)
  {
    if sel == [] then TimelineFrame(timeline)
    else MergeAsOf(JoinAll(timeline, tables, sel[..|sel| - 1]), tables[sel[|sel| - 1]])
  }

  /** The data columns of the selected topics, in merge order. */
  function ColumnsOf<V>(tables: map<string, Table<V>>, sel: seq<string>): seq<string>
    requires AllKnown(tables, sel)
  {
    if sel == [] then [] else ColumnsOf(tables, sel[..|sel| - 1]) + tables[sel[|sel| - 1]].columns
  }

  /** Where the columns of the `p`-th selected topic start in the merged frame. */
  function Offset<V>(tables: map<string, Table<V>>, sel: seq<string>, p: nat): nat
    requires AllKnown(tables, sel) && p <= |sel|
  {
    |ColumnsOf(tables, sel[..p])|
  }

  /**
   * The joined frame has one row per timeline entry, its `timestamp` column
   * is the timeline, its columns are those of the selected topics in merge
   * order, and it is rectangular.
   */
  lemma {:induction false} JoinAllShape<V>(timeline: seq<int>, tables: map<string, Table<V>>, sel: seq<string>)
    requires AllKnown(tables, sel)
    requires forall p :: 0 <= p < |sel| ==> WellFormed(tables[sel[p]])
    ensures JoinAll(timeline, tables, sel).columns == ColumnsOf(tables, sel)
    ensures Timestamps(JoinAll(timeline, tables, sel).rows) == timeline
    ensures WellFormed(JoinAll(timeline, tables, sel))
  {
    if sel != [] {
      JoinAllShape(timeline, tables, sel[..|sel| - 1]);
    }
  }

  /** Merging keeps every column already in the frame. */
  lemma MergeAsOfKeeps<V>(m: Table<V>, df: Table<V>, col: nat)
    requires WellFormed(m) && col < |m.columns|
    ensures Column(MergeAsOf(m, df).rows, col) == Column(m.rows, col)
  {
    var r := MergeAsOf(m, df);
    forall i | 0 <= i < |m.rows|
      ensures Column(r.rows, col)[i] == Column(m.rows, col)[i]
    {
      assert r.rows[i].cells[col] == m.rows[i].cells[col];
    }
  }

  /** Merging `df` appends its column `j` as seen from each timestamp of the frame. */
  lemma MergeAsOfAppends<V>(m: Table<V>, df: Table<V>, j: nat)
    requires WellFormed(m) && WellFormed(df) && j < |df.columns|
    ensures Column(MergeAsOf(m, df).rows, |m.columns| + j) == AsOfColumn(df, Timestamps(m.rows), j)
  {
    var r := MergeAsOf(m, df);
    forall i | 0 <= i < |m.rows|
      ensures Column(r.rows, |m.columns| + j)[i] == AsOfColumn(df, Timestamps(m.rows), j)[i]
    {
      assert r.rows[i].cells[|m.columns| + j] == AsOfCells(df, m.rows[i].timestamp)[j];
    }
  }

  /**
   * In the joined frame, data column `j` of the `p`-th selected topic holds,
   * at each timeline entry `t`, that topic's cell from its last row with
   * timestamp at most `t`, or NaN when it has no such row.
   */
  lemma {:induction false} JoinAllColumn<V>(
    timeline: seq<int>, tables: map<string, Table<V>>, sel: seq<string>, p: nat, j: nat)
    requires AllKnown(tables, sel)
    requires forall q :: 0 <= q < |sel| ==> WellFormed(tables[sel[q]])
    requires p < |sel| && j < |tables[sel[p]].columns|
    ensures Offset(tables, sel, p) + j < |ColumnsOf(tables, sel)|
    ensures Column(JoinAll(timeline, tables, sel).rows, Offset(tables, sel, p) + j) ==
      AsOfColumn(tables[sel[p]], timeline, j)
  {
    var n := |sel|;
    var pre := sel[..n - 1];
    var m := JoinAll(timeline, tables, pre);
    JoinAllShape(timeline, tables, pre);
    assert sel[..n] == sel;
    if p < n - 1 {
      assert pre[..p] == sel[..p];
      JoinAllColumn(timeline, tables, pre, p, j);
      MergeAsOfKeeps(m, tables[sel[n - 1]], Offset(tables, sel, p) + j);
    } else {
      MergeAsOfAppends(m, tables[sel[n - 1]], j);
    }
  }

  /** Every column of the joined frame belongs to exactly one position of a selected topic. */
  lemma {:induction false} ColumnOwner<V>(tables: map<string, Table<V>>, sel: seq<string>, col: nat)
    returns (p: nat, j: nat)
    requires AllKnown(tables, sel) && col < |ColumnsOf(tables, sel)|
    ensures p < |sel| && j < |tables[sel[p]].columns| && col == Offset(tables, sel, p) + j
  {
    var n := |sel|;
    var pre := sel[..n - 1];
    assert AllKnown(tables, pre);
    if col < |ColumnsOf(tables, pre)| {
      p, j := ColumnOwner(tables, pre, col);
      assert pre[..p] == sel[..p];
    } else {
      p, j := n - 1, col - |ColumnsOf(tables, pre)|;
    }
  }
}
