/**
 * `PX4MessageDict`: the dictionary of per-topic tables a log is read into.
 * Building it qualifies every column with its topic and reindexes every
 * table by time; `concat` merges a selection of its topics onto one
 * timeline and fills the gaps.
 */
module MessageStore {
  import opened Wrappers
  import opened Frames
  import opened ColumnNames
  import opened Fill
  import opened AsOf
  import opened Timeline

  /** No name occurs twice (the keys of a `dict`). */
  predicate Distinct(names: seq<string>)
  {
    forall i, j :: 0 <= i < j < |names| ==> names[i] != names[j]
  }

  /** `df.rename(columns=new_cols)` followed by the nanosecond `TimedeltaIndex`. */
  function Qualify<V>(topic: string, df: Table<V>): Table<V>
  {
    Table(
      seq(|df.columns|, i requires 0 <= i < |df.columns| => QualifiedName(topic, df.columns[i])),
      df.rows,
      NsIndex(df.rows))
  }

  /**
   * Qualifying keeps the rows and the number of columns, each original
   * column name can be read back from its new name, and the new index is
   * the timestamp in nanoseconds.
   */
  lemma QualifyKeeps<V>(topic: string, df: Table<V>)
    ensures Qualify(topic, df).rows == df.rows
    ensures |Qualify(topic, df).columns| == |df.columns|
    ensures forall i :: 0 <= i < |df.columns| ==> Unqualified(topic, Qualify(topic, df).columns[i]) == df.columns[i]
    ensures |Qualify(topic, df).index| == |df.rows|
    ensures forall i :: 0 <= i < |df.rows| ==> Qualify(topic, df).index[i] == df.rows[i].timestamp * 1000
    ensures WellFormed(df) ==> WellFormed(Qualify(topic, df))
    ensures TIMESTAMP !in df.columns ==> TIMESTAMP !in Qualify(topic, df).columns
  {
    var q := Qualify(topic, df);
    forall i | 0 <= i < |df.columns|
      ensures Unqualified(topic, q.columns[i]) == df.columns[i]
      ensures df.columns[i] != TIMESTAMP ==> q.columns[i] != TIMESTAMP
    {
      QualifiedNameRoundTrip(topic, df.columns[i]);
    }
  }

  /** Two different topics whose names hold no `__` never share a qualified data column. */
  lemma QualifyDisjoint<V>(x: string, dx: Table<V>, y: string, dy: Table<V>, i: nat, k: nat)
    requires NoDoubleUnderscore(x) && NoDoubleUnderscore(y) && x != y
    requires i < |dx.columns| && k < |dy.columns| && dx.columns[i] != TIMESTAMP
    ensures Qualify(x, dx).columns[i] != Qualify(y, dy).columns[k]
  {
    QualifiedNamesDistinct(x, dx.columns[i], y, dy.columns[k]);
  }

  /** The inner loop of `__init__`: builds `new_cols` for one topic and renames and reindexes its table. */
  method QualifyTable<V>(topic: string, df: Table<V>) returns (q: Table<V>)
    ensures q == Qualify(topic, df)
  {
    var newCols: seq<string> := [];
    for i := 0 to |df.columns|
      invariant |newCols| == i
      invariant forall k :: 0 <= k < i ==> newCols[k] == QualifiedName(topic, df.columns[k])
    {
      var col := df.columns[i];
      if col == TIMESTAMP {
        newCols := newCols + [col];
      } else {
        newCols := newCols + ["t_" + topic + "__f_" + col];
      }
    }
    q := Table(newCols, df.rows, NsIndex(df.rows));
  }

  /** `topics`, or every topic of the store in its own order when `topics` is `None`. */
  function Selected(keys: seq<string>, topics: Option<seq<string>>): seq<string>
  {
    if topics.Some? then topics.value else keys
  }

  /** The timeline `concat` merges onto: the `dt` range when `dt` is given, else the timestamps of `on`. */
  function TimelineOf<V>(tables: map<string, Table<V>>, keys: seq<string>, on: Option<string>, dt: Option<int>)
    : Result<seq<int>, MergeError>
    requires AllKnown(tables, keys)
  {
    if dt.Some? then DtTimeline(tables, keys, dt.value)
    else if on.Some? then
      if on.value in tables then Ok(Timestamps(tables[on.value].rows)) else Err(UnknownTopic(on.value))
    else Err(NoTimeline)
  }

  /**
   * The first error the merge loop raises: looking up a topic that is not
   * in the store, or `merge_asof` refusing a timeline or a topic whose
   * timestamps are out of order.
   */
  function JoinCheck<V>(timeline: seq<int>, tables: map<string, Table<V>>, sel: seq<string>): (e: Option<MergeError>)
    ensures e.None? ==> AllKnown(tables, sel)
  {
    if sel == [] then None
    else match JoinCheck(timeline, tables, sel[..|sel| - 1])
      case Some(e) => Some(e)
      case None =>
        var topic := sel[|sel| - 1];
        if topic !in tables then Some(UnknownTopic(topic))
        else if !Ascending(timeline) || !TimestampsSorted(tables[topic].rows) then Some(Unsorted)
        else None
  }

  /** The merge loop raises nothing exactly when every selected topic exists and everything it merges is in order. */
  lemma {:induction false} JoinCheckNoneIff<V>(timeline: seq<int>, tables: map<string, Table<V>>, sel: seq<string>)
    ensures JoinCheck(timeline, tables, sel).None? <==>
      && AllKnown(tables, sel)
      && (sel != [] ==> Ascending(timeline))
      && (forall p :: 0 <= p < |sel| ==> sel[p] in tables && TimestampsSorted(tables[sel[p]].rows))
  {
    if sel != [] {
      var pre := sel[..|sel| - 1];
      JoinCheckNoneIff(timeline, tables, pre);
      assert forall p :: 0 <= p < |pre| ==> pre[p] == sel[p];
    }
  }

  /** Once the loop has raised on a prefix of the selection, the rest of the selection does not matter. */
  lemma {:induction false} JoinCheckPrefix<V>(timeline: seq<int>, tables: map<string, Table<V>>, sel: seq<string>, q: nat)
    requires q <= |sel| && JoinCheck(timeline, tables, sel[..q]).Some?
    ensures JoinCheck(timeline, tables, sel) == JoinCheck(timeline, tables, sel[..q])
    decreases |sel|
  {
    if q < |sel| {
      var pre := sel[..|sel| - 1];
      assert pre[..q] == sel[..q];
      JoinCheckPrefix(timeline, tables, pre, q);
    } else {
      assert sel[..q] == sel;
    }
  }

  /** What `concat(topics, on, dt)` returns, or the error it raises. */
  function Merge<V>(keys: seq<string>, tables: map<string, Table<V>>,
                    topics: Option<seq<string>>, on: Option<string>, dt: Option<int>): Result<Table<V>, MergeError>
    requires AllKnown(tables, keys)
  {
    match TimelineOf(tables, keys, on, dt)
    case Err(e) => Err(e)
    case Ok(timeline) =>
      var sel := Selected(keys, topics);
      match JoinCheck(timeline, tables, sel)
      case Some(e) => Err(e)
      case None => Finish(JoinAll(timeline, tables, sel))
  }

  /** The tail of `concat`: reindex, `ffill`, `bfill`, `pad`, then the `isfinite` assertion. */
  function Finish<V>(m: Table<V>): Result<Table<V>, MergeError>
  {
    var rows := Filled(m.rows);
    if AllPresent(rows) then Ok(Table(m.columns, rows, NsIndex(rows))) else Err(Unfilled)
  }

  /**
   * `concat` raises `IOError` without `dt` and `on`, a `KeyError` for an
   * unknown `on` when it is used, and ignores `on` whenever `dt` is given.
   */
  lemma MergeTimelineChoice<V>(keys: seq<string>, tables: map<string, Table<V>>,
                               topics: Option<seq<string>>, on: Option<string>, dt: Option<int>)
    requires AllKnown(tables, keys)
    ensures dt.None? && on.None? ==> Merge(keys, tables, topics, on, dt) == Err(NoTimeline)
    ensures dt.None? && on.Some? && on.value !in tables ==> Merge(keys, tables, topics, on, dt) == Err(UnknownTopic(on.value))
    ensures dt.Some? ==> Merge(keys, tables, topics, on, dt) == Merge(keys, tables, topics, None, dt)
  {
  }

  /** Every topic of the store is a rectangular table. */
  ghost predicate AllWellFormed<V>(tables: map<string, Table<V>>)
  {
    forall t :: t in tables ==> WellFormed(tables[t])
  }

  /**
   * Filling the joined frame succeeds with one row per timeline entry, that
   * entry as its timestamp, the columns of the selected topics in merge
   * order, a cell in every column, no NaN, and the nanosecond index.
   */
  lemma FinishShape<V>(timeline: seq<int>, tables: map<string, Table<V>>, sel: seq<string>)
    requires AllKnown(tables, sel) && AllWellFormed(tables)
    requires Finish(JoinAll(timeline, tables, sel)).Ok?
    ensures Finish(JoinAll(timeline, tables, sel)).value.columns == ColumnsOf(tables, sel)
    ensures Timestamps(Finish(JoinAll(timeline, tables, sel)).value.rows) == timeline
    ensures WellFormed(Finish(JoinAll(timeline, tables, sel)).value)
    ensures AllPresent(Finish(JoinAll(timeline, tables, sel)).value.rows)
    ensures Finish(JoinAll(timeline, tables, sel)).value.index == NsIndex(Finish(JoinAll(timeline, tables, sel)).value.rows)
  {
    var m := JoinAll(timeline, tables, sel);
    JoinAllShape(timeline, tables, sel);
    FilledCompleteIff(m.rows, |m.columns|);
    var rows := Filled(m.rows);
    assert Timestamps(rows) == Timestamps(m.rows);
  }

  /**
   * In the filled joined frame, cell `i` of column `j` of the `p`-th
   * selected topic is the last non-NaN as-of value of that column at or
   * before timeline entry `i` (forward fill), and when there is none, the
   * first one after it (backward fill).
   */
  lemma FinishCell<V>(timeline: seq<int>, tables: map<string, Table<V>>, sel: seq<string>, p: nat, j: nat, i: nat)
    requires AllKnown(tables, sel) && AllWellFormed(tables)
    requires p < |sel| && j < |tables[sel[p]].columns| && i < |timeline|
    ensures |Filled(JoinAll(timeline, tables, sel).rows)| == |timeline|
    ensures Offset(tables, sel, p) + j < |Filled(JoinAll(timeline, tables, sel).rows)[i].cells|
    ensures Filled(JoinAll(timeline, tables, sel).rows)[i].cells[Offset(tables, sel, p) + j] ==
      NearestValue(AsOfColumn(tables[sel[p]], timeline, j), i)
  {
    var m := JoinAll(timeline, tables, sel);
    var col := Offset(tables, sel, p) + j;
    var c := AsOfColumn(tables[sel[p]], timeline, j);
    JoinedColumnFacts(timeline, tables, sel, p, j);
    FilledColumn(m.rows, |m.columns|, col, c, i);
  }

  lemma JoinedColumnFacts<V>(timeline: seq<int>, tables: map<string, Table<V>>, sel: seq<string>, p: nat, j: nat)
    requires AllKnown(tables, sel) && AllWellFormed(tables)
    requires p < |sel| && j < |tables[sel[p]].columns|
    ensures |JoinAll(timeline, tables, sel).rows| == |timeline|
    ensures Uniform(JoinAll(timeline, tables, sel).rows, |JoinAll(timeline, tables, sel).columns|)
    ensures Offset(tables, sel, p) + j < |JoinAll(timeline, tables, sel).columns|
    ensures Column(JoinAll(timeline, tables, sel).rows, Offset(tables, sel, p) + j) == AsOfColumn(tables[sel[p]], timeline, j)
  {
    var m := JoinAll(timeline, tables, sel);
    JoinAllShape(timeline, tables, sel);
    assert |Timestamps(m.rows)| == |m.rows|;
    JoinAllColumn(timeline, tables, sel, p, j);
  }

  /** Some column of some selected topic has no value at or before any timeline entry. */
  ghost predicate SomeColumnNeverSet<V>(timeline: seq<int>, tables: map<string, Table<V>>, sel: seq<string>)
  {
    exists p, j :: 0 <= p < |sel| && sel[p] in tables &&
      0 <= j < |tables[sel[p]].columns| && ColumnEmpty(AsOfColumn(tables[sel[p]], timeline, j))
  }

  /**
   * The final assertion fails on the joined frame exactly when the
   * timeline is non-empty and some selected column is never set.
   */
  lemma FinishUnfilledIff<V>(timeline: seq<int>, tables: map<string, Table<V>>, sel: seq<string>)
    requires AllKnown(tables, sel) && AllWellFormed(tables)
    ensures Finish(JoinAll(timeline, tables, sel)) == Err(Unfilled) <==>
      timeline != [] && SomeColumnNeverSet(timeline, tables, sel)
  {
    var m := JoinAll(timeline, tables, sel);
    assert Uniform(m.rows, |m.columns|) by {
      JoinAllShape(timeline, tables, sel);
    }
    FilledCompleteIff(m.rows, |m.columns|);
    if HasEmptyColumn(m.rows, |m.columns|) {
      EmptyJoinedColumnOwned(timeline, tables, sel);
    }
    if timeline != [] && SomeColumnNeverSet(timeline, tables, sel) {
      NeverSetColumnEmpty(timeline, tables, sel);
    }
  }

  /** An all-NaN column of the joined frame belongs to a selected column that is never set. */
  lemma EmptyJoinedColumnOwned<V>(timeline: seq<int>, tables: map<string, Table<V>>, sel: seq<string>)
    requires AllKnown(tables, sel) && AllWellFormed(tables)
    requires HasEmptyColumn(JoinAll(timeline, tables, sel).rows, |JoinAll(timeline, tables, sel).columns|)
    ensures timeline != [] && SomeColumnNeverSet(timeline, tables, sel)
  {
    var m := JoinAll(timeline, tables, sel);
    var col :| 0 <= col < |m.columns| && ColumnEmpty(Column(m.rows, col));
    assert |m.rows| == |timeline| && m.columns == ColumnsOf(tables, sel) by {
      JoinAllShape(timeline, tables, sel);
      assert |Timestamps(m.rows)| == |m.rows|;
    }
    var p, j := ColumnOwner(tables, sel, col);
    JoinedColumnFacts(timeline, tables, sel, p, j);
  }

  /** A selected column that is never set on a non-empty timeline is an all-NaN joined column. */
  lemma NeverSetColumnEmpty<V>(timeline: seq<int>, tables: map<string, Table<V>>, sel: seq<string>)
    requires AllKnown(tables, sel) && AllWellFormed(tables)
    requires timeline != [] && SomeColumnNeverSet(timeline, tables, sel)
    ensures HasEmptyColumn(JoinAll(timeline, tables, sel).rows, |JoinAll(timeline, tables, sel).columns|)
  {
    var m := JoinAll(timeline, tables, sel);
    var p, j :| 0 <= p < |sel| && sel[p] in tables &&
       0 <= j < |tables[sel[p]].columns| && ColumnEmpty(AsOfColumn(tables[sel[p]], timeline, j));
    JoinedColumnFacts(timeline, tables, sel, p, j);
    assert ColumnEmpty(Column(m.rows, Offset(tables, sel, p) + j));
  }

  /** A merge that raises nothing before filling is the filled joined frame. */
  lemma MergeJoined<V>(keys: seq<string>, tables: map<string, Table<V>>,
                       topics: Option<seq<string>>, on: Option<string>, dt: Option<int>)
    requires AllKnown(tables, keys)
    requires TimelineOf(tables, keys, on, dt).Ok?
    requires JoinCheck(TimelineOf(tables, keys, on, dt).value, tables, Selected(keys, topics)).None?
    ensures Merge(keys, tables, topics, on, dt) ==
      Finish(JoinAll(TimelineOf(tables, keys, on, dt).value, tables, Selected(keys, topics)))
  {
  }

  /** A successful merge got past the timeline and the merge loop. */
  lemma MergeOkJoined<V>(keys: seq<string>, tables: map<string, Table<V>>,
                         topics: Option<seq<string>>, on: Option<string>, dt: Option<int>)
    requires AllKnown(tables, keys)
    requires Merge(keys, tables, topics, on, dt).Ok?
    ensures TimelineOf(tables, keys, on, dt).Ok?
    ensures JoinCheck(TimelineOf(tables, keys, on, dt).value, tables, Selected(keys, topics)).None?
  {
  }

  /**
   * A successful merge has one row per timeline entry with that entry as its
   * timestamp (the `dt` range, or the timestamps of `on`), the columns of the
   * selected topics in merge order, a cell in every column of every row, no
   * NaN anywhere, and the timestamp in nanoseconds as its index.
   */
  lemma MergeShape<V>(keys: seq<string>, tables: map<string, Table<V>>,
                      topics: Option<seq<string>>, on: Option<string>, dt: Option<int>)
    requires AllKnown(tables, keys) && AllWellFormed(tables)
    requires Merge(keys, tables, topics, on, dt).Ok?
    ensures AllKnown(tables, Selected(keys, topics))
    ensures Merge(keys, tables, topics, on, dt).value.columns == ColumnsOf(tables, Selected(keys, topics))
    ensures dt.Some? ==> (DtTimeline(tables, keys, dt.value).Ok? &&
      Timestamps(Merge(keys, tables, topics, on, dt).value.rows) == DtTimeline(tables, keys, dt.value).value)
    ensures dt.None? ==> (on.Some? && on.value in tables &&
      Timestamps(Merge(keys, tables, topics, on, dt).value.rows) == Timestamps(tables[on.value].rows))
    ensures WellFormed(Merge(keys, tables, topics, on, dt).value)
    ensures AllPresent(Merge(keys, tables, topics, on, dt).value.rows)
    ensures Merge(keys, tables, topics, on, dt).value.index == NsIndex(Merge(keys, tables, topics, on, dt).value.rows)
  {
    MergeOkJoined(keys, tables, topics, on, dt);
    MergeJoined(keys, tables, topics, on, dt);
    FinishShape(TimelineOf(tables, keys, on, dt).value, tables, Selected(keys, topics));
  }

  /**
   * Cell `i` of column `j` of the `p`-th selected topic in the merged table
   * is the last non-NaN as-of value of that column at or before timeline
   * entry `i` (forward fill), and when there is none, the first one after
   * it (backward fill).
   */
  lemma MergedCell<V>(keys: seq<string>, tables: map<string, Table<V>>,
                      topics: Option<seq<string>>, on: Option<string>, dt: Option<int>, p: nat, j: nat, i: nat)
    requires AllKnown(tables, keys) && AllWellFormed(tables)
    requires Merge(keys, tables, topics, on, dt).Ok?
    requires p < |Selected(keys, topics)| && Selected(keys, topics)[p] in tables
    requires j < |tables[Selected(keys, topics)[p]].columns|
    requires i < |Merge(keys, tables, topics, on, dt).value.rows|
    ensures TimelineOf(tables, keys, on, dt).Ok? && AllKnown(tables, Selected(keys, topics))
    ensures i < |TimelineOf(tables, keys, on, dt).value|
    ensures Offset(tables, Selected(keys, topics), p) + j < |Merge(keys, tables, topics, on, dt).value.rows[i].cells|
    ensures Merge(keys, tables, topics, on, dt).value.rows[i].cells[Offset(tables, Selected(keys, topics), p) + j] ==
      NearestValue(AsOfColumn(tables[Selected(keys, topics)[p]], TimelineOf(tables, keys, on, dt).value, j), i)
  {
    MergeOkJoined(keys, tables, topics, on, dt);
    MergeJoined(keys, tables, topics, on, dt);
    var timeline := TimelineOf(tables, keys, on, dt).value;
    var sel := Selected(keys, topics);
    var m := JoinAll(timeline, tables, sel);
    var rows := Merge(keys, tables, topics, on, dt).value.rows;
    assert rows == Filled(m.rows);
    assert |m.rows| == |timeline| by {
      JoinAllShape(timeline, tables, sel);
      assert |Timestamps(m.rows)| == |m.rows|;
    }
    FinishCell(timeline, tables, sel, p, j, i);
    var col := Offset(tables, sel, p) + j;
    assert rows[i].cells[col] == Filled(m.rows)[i].cells[col];
  }

  /**
   * Once the timeline is defined and every selected topic merges, `concat`
   * fails its final `assert` exactly when the timeline is non-empty and
   * some column of some selected topic has no value at or before any
   * timeline entry.
   */
  lemma MergeUnfilledIff<V>(keys: seq<string>, tables: map<string, Table<V>>,
                            topics: Option<seq<string>>, on: Option<string>, dt: Option<int>)
    requires AllKnown(tables, keys) && AllWellFormed(tables)
    requires TimelineOf(tables, keys, on, dt).Ok?
    requires JoinCheck(TimelineOf(tables, keys, on, dt).value, tables, Selected(keys, topics)).None?
    ensures Merge(keys, tables, topics, on, dt) == Err(Unfilled) <==>
      TimelineOf(tables, keys, on, dt).value != [] &&
      SomeColumnNeverSet(TimelineOf(tables, keys, on, dt).value, tables, Selected(keys, topics))
  {
    MergeJoined(keys, tables, topics, on, dt);
    FinishUnfilledIff(TimelineOf(tables, keys, on, dt).value, tables, Selected(keys, topics));
  }

  /** The store: its topics in insertion order and the table of each topic. */
  /** No table lists `timestamp` among its data columns: it is held in every row instead. */
  predicate DataColumnsOnly<V>(tables: map<string, Table<V>>)
  {
    forall t :: t in tables ==> TIMESTAMP !in tables[t].columns
  }

  class MessageDict<V> {
    var keys: seq<string>
    var tables: map<string, Table<V>>

    /**
     * The keys are the topics of the store, once each, every table is
     * rectangular, and no table lists `timestamp` as a data column.
     */
    ghost predicate Valid()
      reads this
    {
      && Distinct(keys)
      && SameTopics(tables, keys)
      && AllWellFormed(tables)
      && DataColumnsOnly(tables)
    }

    /** `PX4MessageDict(d)`: a copy of `d` with every table qualified and reindexed. */
    constructor (names: seq<string>, raw: map<string, Table<V>>)
      requires Distinct(names) && SameTopics(raw, names) && AllWellFormed(raw) && DataColumnsOnly(raw)
      ensures Valid()
      ensures keys == names
      ensures tables == map t | t in raw :: Qualify(t, raw[t])
    {
      keys := names;
      tables := raw;
      new;
      for i := 0 to |names|
        invariant keys == names
        invariant forall t :: t in tables <==> t in raw
        invariant forall p :: 0 <= p < |names| ==>
          tables[names[p]] == if p < i then Qualify(names[p], raw[names[p]]) else raw[names[p]]
      {
        var topic := names[i];
        var df := QualifyTable(topic, tables[topic]);
        tables := tables[topic := df];
      }
      forall t | t in raw
        ensures WellFormed(tables[t]) && TIMESTAMP !in tables[t].columns && tables[t] == Qualify(t, raw[t])
      {
        var p :| 0 <= p < |names| && names[p] == t;
        QualifyKeeps(t, raw[t]);
      }
    }

    /** The loop over `sorted(self.keys())` that finds `ts_min` and `ts_max`. */
    method TimestampBounds() returns (lo: Bound, hi: Bound)
      requires Valid()
      ensures AllKnown(tables, SortedKeys(keys))
      ensures (lo, hi) == RangeFold(tables, SortedKeys(keys))
    {
      SameTopicsKnown(tables, keys);
      var order := SortedKeys(keys);
      lo, hi := Unset, Unset;
      for i := 0 to |order|
        invariant (lo, hi) == RangeFold(tables, order[..i])
      {
        var df := tables[order[i]];
        var tMin := MinTimestamp(df.rows);
        var tMax := MaxTimestamp(df.rows);
        if lo.Unset? || (tMin.At? && lo.At? && tMin.value < lo.value) {
          lo := tMin;
        }
        if hi.Unset? || (tMax.At? && hi.At? && tMax.value > hi.value) {
          hi := tMax;
        }
        assert order[..i + 1][..i] == order[..i];
      }
      assert order[..|order|] == order;
    }

    /** The `dt` branch of `concat`: `np.arange(ts_min, ts_max - dt*1e6, dt*1e6)` with `dt*1e6` as `step`. */
    method DtRange(step: int) returns (r: Result<seq<int>, MergeError>)
      requires Valid()
      ensures AllKnown(tables, keys)
      ensures r == DtTimeline(tables, keys, step)
    {
      SameTopicsKnown(tables, keys);
      var lo, hi := TimestampBounds();
      DtTimelineFromBounds(tables, keys, step, lo, hi);
      if lo.Unset? || hi.Unset? {
        r := Err(NoTopics);
      } else if step == 0 {
        r := Err(ZeroStep);
      } else if !lo.At? || !hi.At? {
        r := Err(UndefinedRange);
      } else {
        r := Ok(Arange(lo.value, hi.value - step, step));
      }
    }

    /** The first half of `concat`: the timeline from `dt`, else from `on`, else `IOError`. */
    method MergeTimeline(on: Option<string>, dt: Option<int>) returns (r: Result<seq<int>, MergeError>)
      requires Valid()
      ensures AllKnown(tables, keys)
      ensures r == TimelineOf(tables, keys, on, dt)
    {
      SameTopicsKnown(tables, keys);
      if dt.Some? {
        r := DtRange(dt.value);
      } else if on.Some? {
        if on.value !in tables {
          return Err(UnknownTopic(on.value));
        }
        r := Ok(Timestamps(tables[on.value].rows));
      } else {
        r := Err(NoTimeline);
      }
    }

    /** The merge loop: `m = pd.merge_asof(m, self[topic], 'timestamp')` for each selected topic in turn. */
    method JoinTopics(timeline: seq<int>, sel: seq<string>) returns (r: Result<Table<V>, MergeError>)
      ensures JoinCheck(timeline, tables, sel).Some? ==> r == Err(JoinCheck(timeline, tables, sel).value)
      ensures JoinCheck(timeline, tables, sel).None? ==> r == Ok(JoinAll(timeline, tables, sel))
    {
      var m := TimelineFrame(timeline);
      for p := 0 to |sel|
        invariant JoinCheck(timeline, tables, sel[..p]).None?
        invariant m == JoinAll(timeline, tables, sel[..p])
      {
        var topic := sel[p];
        assert sel[..p + 1][..p] == sel[..p];
        if topic !in tables {
          JoinCheckPrefix(timeline, tables, sel, p + 1);
          return Err(UnknownTopic(topic));
        }
        if !Ascending(timeline) || !TimestampsSorted(tables[topic].rows) {
          JoinCheckPrefix(timeline, tables, sel, p + 1);
          return Err(Unsorted);
        }
        m := MergeAsOf(m, tables[topic]);
      }
      assert sel[..|sel|] == sel;
      r := Ok(m);
    }

    /** `concat(topics, on, dt)`, with `dt` given as a whole number of microseconds. */
    method Concat(topics: Option<seq<string>>, on: Option<string>, dt: Option<int>) returns (r: Result<Table<V>, MergeError>)
      requires Valid()
      ensures AllKnown(tables, keys)
      ensures r == Merge(keys, tables, topics, on, dt)
    {
      var timeline := MergeTimeline(on, dt);
      if timeline.Err? {
        return Err(timeline.error);
      }
      var joined := JoinTopics(timeline.value, Selected(keys, topics));
      if joined.Err? {
        return Err(joined.error);
      }
      r := FillMerged(joined.value);
    }
  }

  /** Reindexes the merged frame, fills it in place three times and checks that no NaN is left. */
  method FillMerged<V>(m: Table<V>) returns (r: Result<Table<V>, MergeError>)
    ensures r == Finish(m)
  {
    var a := new Row<V>[|m.rows|](i requires 0 <= i < |m.rows| => m.rows[i]);
    assert a[..] == m.rows;
    FillForward(a);
    FillBackward(a);
    FillForward(a);
    var rows := a[..];
    if !AllPresent(rows) {
      return Err(Unfilled);
    }
    r := Ok(Table(m.columns, rows, NsIndex(rows)));
  }
}
