/**
 * The timeline `concat` merges onto when `dt` is given: the global
 * `ts_min`/`ts_max` loop over `sorted(self.keys())` and
 * `np.arange(ts_min, ts_max - dt*1e6, dt*1e6, dtype=np.int64)`. The step
 * `dt*1e6` is taken as a whole number of microseconds.
 */
module Timeline {
  import opened Wrappers
  import opened Frames
  import opened Sorting

  /** A running bound of the loop: still `None`, NaN (from an empty topic), or a timestamp. */
  datatype Bound = Unset | Undefined | At(value: int)

  /** `v` is a timestamp of some topic in `order` and no timestamp of those topics is smaller. */
  ghost predicate IsEarliestIn<V>(tables: map<string, Table<V>>, order: seq<string>, v: int)
  {
    && (forall t, k :: t in order && t in tables && 0 <= k < |tables[t].rows| ==> v <= tables[t].rows[k].timestamp)
    && (exists t, k :: t in order && t in tables && 0 <= k < |tables[t].rows| && tables[t].rows[k].timestamp == v)
  }

  /** `v` is a timestamp of some topic in `order` and no timestamp of those topics is larger. */
  ghost predicate IsLatestIn<V>(tables: map<string, Table<V>>, order: seq<string>, v: int)
  {
    && (forall t, k :: t in order && t in tables && 0 <= k < |tables[t].rows| ==> tables[t].rows[k].timestamp <= v)
    && (exists t, k :: t in order && t in tables && 0 <= k < |tables[t].rows| && tables[t].rows[k].timestamp == v)
  }

  /** `df['timestamp'].min()`: the least timestamp, NaN for an empty table. */
  function MinTimestamp<V>(rows: seq<Row<V>>): (b: Bound)
    ensures b.Unset? == false
    ensures b.Undefined? <==> rows == []
    ensures b.At? ==> exists k :: 0 <= k < |rows| && rows[k].timestamp == b.value
    ensures b.At? ==> forall k :: 0 <= k < |rows| ==> b.value <= rows[k].timestamp
  {
    if rows == [] then Undefined
    else
      var last := rows[|rows| - 1].timestamp;
      match MinTimestamp(rows[..|rows| - 1])
      case At(v) => At(if last < v then last else v)
      case _ => At(last)
  }

  /** `df['timestamp'].max()`: the greatest timestamp, NaN for an empty table. */
  function MaxTimestamp<V>(rows: seq<Row<V>>): (b: Bound)
    ensures b.Unset? == false
    ensures b.Undefined? <==> rows == []
    ensures b.At? ==> exists k :: 0 <= k < |rows| && rows[k].timestamp == b.value
    ensures b.At? ==> forall k :: 0 <= k < |rows| ==> rows[k].timestamp <= b.value
  {
    if rows == [] then Undefined
    else
      var last := rows[|rows| - 1].timestamp;
      match MaxTimestamp(rows[..|rows| - 1])
      case At(v) => At(if last > v then last else v)
      case _ => At(last)
  }

  /** `if ts_min is None or ts_t_min < ts_min: ts_min = ts_t_min` (a comparison with NaN is false). */
  function LowerStep(acc: Bound, x: Bound): Bound
  {
    if acc.Unset? || (x.At? && acc.At? && x.value < acc.value) then x else acc
  }

  /** `if ts_max is None or ts_t_max > ts_max: ts_max = ts_t_max`. */
  function UpperStep(acc: Bound, x: Bound): Bound
  {
    if acc.Unset? || (x.At? && acc.At? && x.value > acc.value) then x else acc
  }

  /** The loop's `(ts_min, ts_max)` after visiting the topics of `order`. */
  function RangeFold<V>(tables: map<string, Table<V>>, order: seq<string>): (Bound, Bound)
    requires AllKnown(tables, order)
  {
    if order == [] then (Unset, Unset)
    else
      var acc := RangeFold(tables, order[..|order| - 1]);
      var df := tables[order[|order| - 1]];
      (LowerStep(acc.0, MinTimestamp(df.rows)), UpperStep(acc.1, MaxTimestamp(df.rows)))
  }

  /**
   * The loop leaves `None` only for no topics, NaN exactly when the first
   * topic visited is empty, and otherwise the least and greatest timestamps
   * over all visited topics (empty topics after the first are skipped).
   */
  lemma RangeFoldBounds<V>(tables: map<string, Table<V>>, order: seq<string>)
    requires AllKnown(tables, order)
    ensures RangeFold(tables, order).0.Unset? <==> order == []
    ensures RangeFold(tables, order).1.Unset? <==> order == []
    ensures RangeFold(tables, order).0.Undefined? <==> order != [] && tables[order[0]].rows == []
    ensures RangeFold(tables, order).1.Undefined? <==> order != [] && tables[order[0]].rows == []
    ensures RangeFold(tables, order).0.At? ==> IsEarliestIn(tables, order, RangeFold(tables, order).0.value)
    ensures RangeFold(tables, order).1.At? ==> IsLatestIn(tables, order, RangeFold(tables, order).1.value)
  {
    RangeFoldLower(tables, order);
    RangeFoldUpper(tables, order);
  }

  /** The `ts_min` half of `RangeFoldBounds`. */
  lemma {:induction false} RangeFoldLower<V>(tables: map<string, Table<V>>, order: seq<string>)
    requires AllKnown(tables, order)
    ensures RangeFold(tables, order).0.Unset? <==> order == []
    ensures RangeFold(tables, order).0.Undefined? <==> order != [] && tables[order[0]].rows == []
    ensures RangeFold(tables, order).0.At? ==> IsEarliestIn(tables, order, RangeFold(tables, order).0.value)
  {
    if order != [] {
      var pre := order[..|order| - 1];
      var last := order[|order| - 1];
      assert AllKnown(tables, pre);
      RangeFoldLower(tables, pre);
      var lo := RangeFold(tables, pre).0;
      var lo' := RangeFold(tables, order).0;
      assert lo' == LowerStep(lo, MinTimestamp(tables[last].rows));
      assert lo'.Undefined? <==> tables[order[0]].rows == [] by {
        if pre != [] {
          assert pre[0] == order[0];
        }
      }
      if lo'.At? {
        assert order == pre + [last];
        if lo.At? && lo' == lo {
          LowerKept(tables, pre, last, lo.value);
        } else {
          LowerTaken(tables, pre, last, lo, lo'.value);
        }
      }
    }
  }

  /** The `ts_max` half of `RangeFoldBounds`. */
  lemma {:induction false} RangeFoldUpper<V>(tables: map<string, Table<V>>, order: seq<string>)
    requires AllKnown(tables, order)
    ensures RangeFold(tables, order).1.Unset? <==> order == []
    ensures RangeFold(tables, order).1.Undefined? <==> order != [] && tables[order[0]].rows == []
    ensures RangeFold(tables, order).1.At? ==> IsLatestIn(tables, order, RangeFold(tables, order).1.value)
  {
    if order != [] {
      var pre := order[..|order| - 1];
      var last := order[|order| - 1];
      assert AllKnown(tables, pre);
      RangeFoldUpper(tables, pre);
      var hi := RangeFold(tables, pre).1;
      var hi' := RangeFold(tables, order).1;
      assert hi' == UpperStep(hi, MaxTimestamp(tables[last].rows));
      assert hi'.Undefined? <==> tables[order[0]].rows == [] by {
        if pre != [] {
          assert pre[0] == order[0];
        }
      }
      if hi'.At? {
        assert order == pre + [last];
        if hi.At? && hi' == hi {
          UpperKept(tables, pre, last, hi.value);
        } else {
          UpperTaken(tables, pre, last, hi, hi'.value);
        }
      }
    }
  }

  lemma LowerKept<V>(tables: map<string, Table<V>>, pre: seq<string>, last: string, v: int)
    requires last in tables && IsEarliestIn(tables, pre, v)
    requires LowerStep(At(v), MinTimestamp(tables[last].rows)) == At(v)
    ensures IsEarliestIn(tables, pre + [last], v)
  {
    var rows := tables[last].rows;
    var t0, k0 :| t0 in pre && t0 in tables && 0 <= k0 < |tables[t0].rows| && tables[t0].rows[k0].timestamp == v;
    assert t0 in pre + [last];
    forall t, k | t in pre + [last] && t in tables && 0 <= k < |tables[t].rows|
      ensures v <= tables[t].rows[k].timestamp
    {
      if t !in pre {
        assert t == last;
        assert MinTimestamp(rows).At?;
      }
    }
  }

  lemma LowerTaken<V>(tables: map<string, Table<V>>, pre: seq<string>, last: string, lo: Bound, v: int)
    requires last in tables && AllKnown(tables, pre)
    requires lo.Unset? <==> pre == []
    requires lo.At? ==> IsEarliestIn(tables, pre, lo.value)
    requires MinTimestamp(tables[last].rows) == At(v) && LowerStep(lo, At(v)) == At(v)
    ensures IsEarliestIn(tables, pre + [last], v)
  {
    var rows := tables[last].rows;
    var k0 :| 0 <= k0 < |rows| && rows[k0].timestamp == v;
    assert last in pre + [last];
    forall t, k | t in pre + [last] && t in tables && 0 <= k < |tables[t].rows|
      ensures v <= tables[t].rows[k].timestamp
    {
      if t != last {
        assert t in pre;
      }
    }
  }

  lemma UpperKept<V>(tables: map<string, Table<V>>, pre: seq<string>, last: string, v: int)
    requires last in tables && IsLatestIn(tables, pre, v)
    requires UpperStep(At(v), MaxTimestamp(tables[last].rows)) == At(v)
    ensures IsLatestIn(tables, pre + [last], v)
  {
    var rows := tables[last].rows;
    var t0, k0 :| t0 in pre && t0 in tables && 0 <= k0 < |tables[t0].rows| && tables[t0].rows[k0].timestamp == v;
    assert t0 in pre + [last];
    forall t, k | t in pre + [last] && t in tables && 0 <= k < |tables[t].rows|
      ensures tables[t].rows[k].timestamp <= v
    {
      if t !in pre {
        assert t == last;
        assert MaxTimestamp(rows).At?;
      }
    }
  }

  lemma UpperTaken<V>(tables: map<string, Table<V>>, pre: seq<string>, last: string, hi: Bound, v: int)
    requires last in tables && AllKnown(tables, pre)
    requires hi.Unset? <==> pre == []
    requires hi.At? ==> IsLatestIn(tables, pre, hi.value)
    requires MaxTimestamp(tables[last].rows) == At(v) && UpperStep(hi, At(v)) == At(v)
    ensures IsLatestIn(tables, pre + [last], v)
  {
    var rows := tables[last].rows;
    var k0 :| 0 <= k0 < |rows| && rows[k0].timestamp == v;
    assert last in pre + [last];
    forall t, k | t in pre + [last] && t in tables && 0 <= k < |tables[t].rows|
      ensures tables[t].rows[k].timestamp <= v
    {
      if t != last {
        assert t in pre;
      }
    }
  }

  /** `np.arange(start, stop, step)` on integers: from `start` in steps of `step` while short of `stop`. */
  function Arange(start: int, stop: int, step: int): seq<int>
    requires step != 0
    decreases if step > 0 then stop - start else start - stop
  {
    if (step > 0 && start < stop) || (step < 0 && start > stop) then [start] + Arange(start + step, stop, step)
    else []
  }

  /** Each entry is smaller than every later one. */
  predicate StrictlyAscending(s: seq<int>)
  {
    forall i, j :: 0 <= i < j < |s| ==> s[i] < s[j]
  }

  /** Every tick `start + i*step` below `stop`, and no more. */
  ghost predicate Ticks(r: seq<int>, start: int, stop: int, step: int)
  {
    && (forall i :: 0 <= i < |r| ==> r[i] == start + i * step && r[i] < stop)
    && start + |r| * step >= stop
  }

  /** With a positive step, `arange` yields exactly the ticks below `stop`. */
  lemma {:induction false} ArangeTicks(start: int, stop: int, step: int)
    requires step > 0
    ensures Ticks(Arange(start, stop, step), start, stop, step)
    decreases stop - start
  {
    var r := Arange(start, stop, step);
    if start < stop {
      ArangeTicks(start + step, stop, step);
      var rest := Arange(start + step, stop, step);
      assert r == [start] + rest;
      forall i | 0 <= i < |r|
        ensures r[i] == start + i * step && r[i] < stop
      {
        if i > 0 {
          assert r[i] == rest[i - 1] == start + step + (i - 1) * step;
        }
      }
      assert start + |r| * step == start + step + |rest| * step;
    }
  }

  /** Ticks with a positive step start at `start`, ascend strictly, and lie exactly `step` apart. */
  lemma TicksAscending(r: seq<int>, start: int, stop: int, step: int)
    requires step > 0 && Ticks(r, start, stop, step)
    ensures r != [] ==> r[0] == start
    ensures forall i :: 0 <= i < |r| - 1 ==> r[i + 1] == r[i] + step
    ensures forall i, j :: 0 <= i < j < |r| ==> r[i] < r[j]
  {
    forall k | 0 <= k < |r| - 1
      ensures r[k + 1] == r[k] + step
    {
      assert (k + 1) * step == k * step + step;
    }
    forall i, j | 0 <= i < j < |r|
      ensures r[i] < r[j]
    {
      StepsAscend(r, step, i, j);
    }
  }

  /** In a list whose neighbours lie `step > 0` apart, every entry is below every later one. */
  lemma {:induction false} StepsAscend(r: seq<int>, step: int, i: nat, j: nat)
    requires step > 0 && i < j < |r|
    requires forall k :: 0 <= k < |r| - 1 ==> r[k + 1] == r[k] + step
    ensures r[i] < r[j]
    decreases j - i
  {
    if i + 1 < j {
      StepsAscend(r, step, i, j - 1);
    }
  }

  /** With a negative step and `start <= stop`, `arange` is empty. */
  lemma ArangeDescendingEmpty(start: int, stop: int, step: int)
    requires step < 0 && start <= stop
    ensures Arange(start, stop, step) == []
  {
  }

  /** `sorted(self.keys())`. */
  function SortedKeys(keys: seq<string>): (r: seq<string>)
    ensures multiset(r) == multiset(keys)
  {
    Sort(keys, LexLe)
  }

  lemma SortedKeysSameTopics(keys: seq<string>)
    ensures forall t :: t in SortedKeys(keys) <==> t in keys
    ensures |SortedKeys(keys)| == |keys|
  {
    var r := SortedKeys(keys);
    assert |r| == |multiset(r)| == |multiset(keys)| == |keys|;
    forall t
      ensures t in r <==> t in keys
    {
      assert t in r <==> t in multiset(r);
      assert t in keys <==> t in multiset(keys);
    }
  }

  lemma SortedKeysKnown<V>(tables: map<string, Table<V>>, keys: seq<string>)
    requires AllKnown(tables, keys)
    ensures AllKnown(tables, SortedKeys(keys))
  {
    SortedKeysSameTopics(keys);
    var r := SortedKeys(keys);
    forall p | 0 <= p < |r|
      ensures r[p] in tables
    {
      assert r[p] in keys;
    }
  }

  /** The topic `sorted(self.keys())` starts with precedes every other in string order. */
  lemma SortedKeysHead(keys: seq<string>)
    requires keys != []
    ensures SortedKeys(keys) != [] && SortedKeys(keys)[0] in keys
    ensures forall t :: t in keys ==> LexLe(SortedKeys(keys)[0], t)
  {
    LexLeIsTotalPreorder();
    SortedHeadIsLeast(keys, LexLe);
  }

  /** The timeline for `dt` given as `step` microseconds (`dt*1e6`). */
  function DtTimeline<V>(tables: map<string, Table<V>>, keys: seq<string>, step: int): Result<seq<int>, MergeError>
    requires AllKnown(tables, keys)
  {
    SortedKeysKnown(tables, keys);
    var bounds := RangeFold(tables, SortedKeys(keys));
    if bounds.0.Unset? || bounds.1.Unset? then Err(NoTopics)
    else if step == 0 then Err(ZeroStep)
    else if !bounds.0.At? || !bounds.1.At? then Err(UndefinedRange)
    else Ok(Arange(bounds.0.value, bounds.1.value - step, step))
  }

  /** `DtTimeline` decided by the two bounds of the loop. */
  lemma DtTimelineFromBounds<V>(tables: map<string, Table<V>>, keys: seq<string>, step: int, lo: Bound, hi: Bound)
    requires AllKnown(tables, keys) && AllKnown(tables, SortedKeys(keys))
    requires RangeFold(tables, SortedKeys(keys)) == (lo, hi)
    ensures DtTimeline(tables, keys, step) ==
      if lo.Unset? || hi.Unset? then Err(NoTopics)
      else if step == 0 then Err(ZeroStep)
      else if !lo.At? || !hi.At? then Err(UndefinedRange)
      else Ok(Arange(lo.value, hi.value - step, step))
  {
  }

  /** `v` is the earliest timestamp of any topic of the store. */
  ghost predicate IsEarliest<V>(tables: map<string, Table<V>>, v: int)
  {
    && (forall t, k :: t in tables && 0 <= k < |tables[t].rows| ==> v <= tables[t].rows[k].timestamp)
    && (exists t, k :: t in tables && 0 <= k < |tables[t].rows| && tables[t].rows[k].timestamp == v)
  }

  /** `v` is the latest timestamp of any topic of the store. */
  ghost predicate IsLatest<V>(tables: map<string, Table<V>>, v: int)
  {
    && (forall t, k :: t in tables && 0 <= k < |tables[t].rows| ==> tables[t].rows[k].timestamp <= v)
    && (exists t, k :: t in tables && 0 <= k < |tables[t].rows| && tables[t].rows[k].timestamp == v)
  }

  /** Every topic of the store is one of `keys`, and the other way round. */
  ghost predicate SameTopics<V>(tables: map<string, Table<V>>, keys: seq<string>)
  {
    forall t :: t in tables <==> t in keys
  }

  lemma SameTopicsKnown<V>(tables: map<string, Table<V>>, keys: seq<string>)
    requires SameTopics(tables, keys)
    ensures AllKnown(tables, keys) && AllKnown(tables, SortedKeys(keys))
  {
    assert forall p :: 0 <= p < |keys| ==> keys[p] in keys;
    SortedKeysKnown(tables, keys);
  }

  /**
   * The `dt` timeline fails for an empty store or a zero step, and fails
   * exactly when the first topic in string order is empty.
   */
  lemma DtTimelineErrors<V>(tables: map<string, Table<V>>, keys: seq<string>, step: int)
    requires SameTopics(tables, keys)
    ensures keys == [] ==> DtTimeline(tables, keys, step) == Err(NoTopics)
    ensures keys != [] && step == 0 ==> DtTimeline(tables, keys, step) == Err(ZeroStep)
    ensures keys != [] && step != 0 ==>
      SortedKeys(keys) != [] && SortedKeys(keys)[0] in tables &&
      (DtTimeline(tables, keys, step) == Err(UndefinedRange) <==> tables[SortedKeys(keys)[0]].rows == [])
  {
    SameTopicsKnown(tables, keys);
    var order := SortedKeys(keys);
    SortedKeysSameTopics(keys);
    RangeFoldBounds(tables, order);
    if keys != [] {
      assert order[0] in order;
    }
  }

  lemma EarliestOverAll<V>(tables: map<string, Table<V>>, order: seq<string>, v: int)
    requires forall t :: t in tables <==> t in order
    requires IsEarliestIn(tables, order, v)
    ensures IsEarliest(tables, v)
  {
    var t, k :| t in order && t in tables && 0 <= k < |tables[t].rows| && tables[t].rows[k].timestamp == v;
  }

  lemma LatestOverAll<V>(tables: map<string, Table<V>>, order: seq<string>, v: int)
    requires forall t :: t in tables <==> t in order
    requires IsLatestIn(tables, order, v)
    ensures IsLatest(tables, v)
  {
    var t, k :| t in order && t in tables && 0 <= k < |tables[t].rows| && tables[t].rows[k].timestamp == v;
  }

  /** The earliest timestamp of the store is not after its latest. */
  lemma EarliestNotAfterLatest<V>(tables: map<string, Table<V>>, lo: int, hi: int)
    requires IsEarliest(tables, lo) && IsLatest(tables, hi)
    ensures lo <= hi
  {
    var t, k :| t in tables && 0 <= k < |tables[t].rows| && tables[t].rows[k].timestamp == lo;
  }

  /** Bounds the loop found are the earliest and latest timestamps of the whole store. */
  lemma FoldBoundsOverAll<V>(tables: map<string, Table<V>>, keys: seq<string>, lo: int, hi: int)
    requires SameTopics(tables, keys) && AllKnown(tables, SortedKeys(keys))
    requires RangeFold(tables, SortedKeys(keys)) == (At(lo), At(hi))
    ensures IsEarliest(tables, lo) && IsLatest(tables, hi)
  {
    var order := SortedKeys(keys);
    SortedKeysSameTopics(keys);
    RangeFoldBounds(tables, order);
    EarliestOverAll(tables, order, lo);
    LatestOverAll(tables, order, hi);
  }

  /** A successful `dt` timeline is an `arange` between the two bounds the loop found. */
  lemma DtTimelineBounds<V>(tables: map<string, Table<V>>, keys: seq<string>, step: int)
    returns (lo: int, hi: int)
    requires SameTopics(tables, keys)
    requires DtTimeline(tables, keys, step).Ok?
    ensures AllKnown(tables, SortedKeys(keys))
    ensures RangeFold(tables, SortedKeys(keys)) == (At(lo), At(hi))
    ensures step != 0 && DtTimeline(tables, keys, step).value == Arange(lo, hi - step, step)
  {
    SameTopicsKnown(tables, keys);
    var b := RangeFold(tables, SortedKeys(keys));
    lo, hi := b.0.value, b.1.value;
  }

  /**
   * A successful `dt` timeline is empty for a negative step and otherwise
   * holds every tick from the earliest timestamp of any topic, `step`
   * apart, that lies below the latest timestamp of any topic minus `step`.
   */
  lemma DtTimelineTicks<V>(tables: map<string, Table<V>>, keys: seq<string>, step: int)
    returns (lo: int, hi: int)
    requires SameTopics(tables, keys)
    requires DtTimeline(tables, keys, step).Ok?
    ensures IsEarliest(tables, lo) && IsLatest(tables, hi) && lo <= hi
    ensures step < 0 ==> DtTimeline(tables, keys, step).value == []
    ensures step > 0 ==> Ticks(DtTimeline(tables, keys, step).value, lo, hi - step, step)
    ensures step > 0 ==> StrictlyAscending(DtTimeline(tables, keys, step).value)
  {
    lo, hi := DtTimelineBounds(tables, keys, step);
    FoldBoundsOverAll(tables, keys, lo, hi);
    EarliestNotAfterLatest(tables, lo, hi);
    if step > 0 {
      ArangeTicks(lo, hi - step, step);
      TicksAscending(DtTimeline(tables, keys, step).value, lo, hi - step, step);
    } else {
      ArangeDescendingEmpty(lo, hi - step, step);
    }
  }
}
