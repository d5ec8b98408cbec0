/**
 * The gap filling at the end of `PX4MessageDict.concat`: `ffill`, then
 * `bfill`, then `pad` (a second forward fill), all in place, followed by
 * the assertion that no NaN is left.
 */
module Fill {
  import opened Wrappers
  import opened Frames

  /** The cells of `cur`, each NaN replaced by the cell of `prev` in the same column. */
  function Overlay<V>(cur: seq<Option<V>>, prev: seq<Option<V>>): seq<Option<V>>
  {
    seq(|cur|, j requires 0 <= j < |cur| => if cur[j].None? && j < |prev| then prev[j] else cur[j])
  }

  /** `DataFrame.ffill`: top to bottom, each row is filled from the already filled row above it. */
  function ForwardFilled<V>(s: seq<Row<V>>): (r: seq<Row<V>>)
    ensures |r| == |s|
    ensures forall i :: 0 <= i < |s| ==> r[i].timestamp == s[i].timestamp
  {
    if |s| <= 1 then s
    else
      var p := ForwardFilled(s[..|s| - 1]);
      p + [Row(s[|s| - 1].timestamp, Overlay(s[|s| - 1].cells, p[|p| - 1].cells))]
  }

  /** `DataFrame.bfill`: bottom to top, each row is filled from the already filled row below it. */
  function BackwardFilled<V>(s: seq<Row<V>>): (r: seq<Row<V>>)
    ensures |r| == |s|
    ensures forall i :: 0 <= i < |s| ==> r[i].timestamp == s[i].timestamp
  {
    if |s| <= 1 then s
    else
      var q := BackwardFilled(s[1..]);
      [Row(s[0].timestamp, Overlay(s[0].cells, q[0].cells))] + q
  }

  /** The three fill passes of `concat`: `ffill`, `bfill`, `pad`. */
  function Filled<V>(s: seq<Row<V>>): seq<Row<V>>
  {
    ForwardFilled(BackwardFilled(ForwardFilled(s)))
  }

  /** The nearest present cell at or before `i`. */
  function LastPresent<V>(c: seq<Option<V>>, i: nat): (k: Option<nat>)
    requires i < |c|
    ensures k.Some? ==> k.value <= i && c[k.value].Some? && forall m :: k.value < m <= i ==> c[m].None?
    ensures k.None? ==> forall m :: 0 <= m <= i ==> c[m].None?
  {
    if c[i].Some? then Some(i) else if i == 0 then None else LastPresent(c, i - 1)
  }

  /** The nearest present cell at or after `i`. */
  function FirstPresent<V>(c: seq<Option<V>>, i: nat): (k: Option<nat>)
    requires i < |c|
    ensures k.Some? ==> i <= k.value < |c| && c[k.value].Some? && forall m :: i <= m < k.value ==> c[m].None?
    ensures k.None? ==> forall m :: i <= m < |c| ==> c[m].None?
    decreases |c| - i
  {
    if c[i].Some? then Some(i) else if i == |c| - 1 then None else FirstPresent(c, i + 1)
  }

  /** The value at the nearest present cell at or before `i` (NaN if none). */
  function LastValue<V>(c: seq<Option<V>>, i: nat): Option<V>
    requires i < |c|
  {
    match LastPresent(c, i)
    case Some(k) => c[k]
    case None => None
  }

  /** The value at the nearest present cell at or after `i` (NaN if none). */
  function FirstValue<V>(c: seq<Option<V>>, i: nat): Option<V>
    requires i < |c|
  {
    match FirstPresent(c, i)
    case Some(k) => c[k]
    case None => None
  }

  /** The last non-NaN value at or before `i` if there is one, otherwise the first one after it. */
  function NearestValue<V>(c: seq<Option<V>>, i: nat): Option<V>
    requires i < |c|
  {
    if LastPresent(c, i).Some? then LastValue(c, i) else FirstValue(c, i)
  }

  /** Every cell of the column is NaN. */
  predicate ColumnEmpty<V>(c: seq<Option<V>>)
  {
    forall k :: 0 <= k < |c| ==> c[k].None?
  }

  /** Some data column of a non-empty table is NaN all the way down. */
  predicate HasEmptyColumn<V>(s: seq<Row<V>>, width: nat)
  {
    |s| > 0 && exists j :: 0 <= j < width && ColumnEmpty(Column(s, j))
  }

  lemma {:induction false} LastPresentPrefix<V>(c: seq<Option<V>>, n: nat, i: nat)
    requires i < n <= |c|
    ensures LastPresent(c[..n], i) == LastPresent(c, i)
  {
    if c[i].None? && i > 0 {
      LastPresentPrefix(c, n, i - 1);
    }
  }

  lemma {:induction false} FirstPresentSuffix<V>(c: seq<Option<V>>, i: nat)
    requires 1 <= i < |c|
    ensures FirstPresent(c, i) == match FirstPresent(c[1..], i - 1)
      case Some(k) => Some(k + 1)
      case None => None
    decreases |c| - i
  {
    if c[i].None? && i < |c| - 1 {
      FirstPresentSuffix(c, i + 1);
    }
  }

  lemma FirstPresentUnique<V>(c: seq<Option<V>>, i: nat, k: nat)
    requires i <= k < |c| && c[k].Some?
    requires forall m :: i <= m < k ==> c[m].None?
    ensures FirstPresent(c, i) == Some(k)
  {
  }

  /** After `ffill`, a cell holds the nearest value at or above it. */
  lemma {:induction false} ForwardFilledAt<V>(s: seq<Row<V>>, width: nat, i: nat, j: nat)
    requires Uniform(s, width) && i < |s| && j < width
    ensures |ForwardFilled(s)[i].cells| == width
    ensures ForwardFilled(s)[i].cells[j] == LastValue(Column(s, j), i)
  {
    var n := |s|;
    if n == 1 {
      assert ForwardFilled(s) == s;
      assert LastValue(Column(s, j), 0) == Column(s, j)[0] == s[0].cells[j];
    } else if i < n - 1 {
      ForwardFilledAt(s[..n - 1], width, i, j);
      ForwardFilledEarlierRow(s, width, i, j);
    } else {
      ForwardFilledAt(s[..n - 1], width, n - 2, j);
      ForwardFilledLastRow(s, width, j);
    }
  }

  /** A row above the last one is filled as in the table without its last row. */
  lemma ForwardFilledEarlierRow<V>(s: seq<Row<V>>, width: nat, i: nat, j: nat)
    requires Uniform(s, width) && i < |s| - 1 && j < width
    requires |ForwardFilled(s[..|s| - 1])[i].cells| == width
    requires ForwardFilled(s[..|s| - 1])[i].cells[j] == LastValue(Column(s[..|s| - 1], j), i)
    ensures |ForwardFilled(s)[i].cells| == width
    ensures ForwardFilled(s)[i].cells[j] == LastValue(Column(s, j), i)
  {
    var n := |s|;
    var c := Column(s, j);
    var p := ForwardFilled(s[..n - 1]);
    assert ForwardFilled(s)[i] == p[i];
    assert Column(s[..n - 1], j) == c[..n - 1];
    LastValuePrefix(c, n - 1, i);
  }

  /** The last row is its own cells over the filled row above it. */
  lemma ForwardFilledLastRow<V>(s: seq<Row<V>>, width: nat, j: nat)
    requires Uniform(s, width) && |s| > 1 && j < width
    requires |ForwardFilled(s[..|s| - 1])[|s| - 2].cells| == width
    requires ForwardFilled(s[..|s| - 1])[|s| - 2].cells[j] == LastValue(Column(s[..|s| - 1], j), |s| - 2)
    ensures |ForwardFilled(s)[|s| - 1].cells| == width
    ensures ForwardFilled(s)[|s| - 1].cells[j] == LastValue(Column(s, j), |s| - 1)
  {
    var n := |s|;
    var c := Column(s, j);
    var p := ForwardFilled(s[..n - 1]);
    assert ForwardFilled(s)[n - 1] == Row(s[n - 1].timestamp, Overlay(s[n - 1].cells, p[n - 2].cells));
    assert Column(s[..n - 1], j) == c[..n - 1];
    LastValuePrefix(c, n - 1, n - 2);
    LastValueStep(c, n - 1);
    assert c[n - 1] == s[n - 1].cells[j];
  }

  lemma LastValueStep<V>(c: seq<Option<V>>, i: nat)
    requires 0 < i < |c|
    ensures LastValue(c, i) == if c[i].Some? then c[i] else LastValue(c, i - 1)
  {
  }

  lemma LastValuePrefix<V>(c: seq<Option<V>>, n: nat, i: nat)
    requires i < n <= |c|
    ensures LastValue(c[..n], i) == LastValue(c, i)
  {
    LastPresentPrefix(c, n, i);
  }

  /** After `bfill`, a cell holds the nearest value at or below it. */
  lemma {:induction false} BackwardFilledAt<V>(s: seq<Row<V>>, width: nat, i: nat, j: nat)
    requires Uniform(s, width) && i < |s| && j < width
    ensures |BackwardFilled(s)[i].cells| == width
    ensures BackwardFilled(s)[i].cells[j] == FirstValue(Column(s, j), i)
  {
    var c := Column(s, j);
    if |s| > 1 {
      var post := s[1..];
      var q := BackwardFilled(post);
      var first := Row(s[0].timestamp, Overlay(s[0].cells, q[0].cells));
      assert BackwardFilled(s) == [first] + q;
      assert Column(post, j) == c[1..];
      if i > 0 {
        BackwardFilledAt(post, width, i - 1, j);
        FirstValueSuffix(c, i);
        assert BackwardFilled(s)[i] == q[i - 1];
      } else {
        BackwardFilledAt(post, width, 0, j);
        FirstValueSuffix(c, 1);
        assert BackwardFilled(s)[0].cells[j] == if c[0].Some? then c[0] else q[0].cells[j];
        assert FirstValue(c, 0) == if c[0].Some? then c[0] else FirstValue(c, 1);
      }
    }
  }

  lemma FirstValueSuffix<V>(c: seq<Option<V>>, i: nat)
    requires 1 <= i < |c|
    ensures FirstValue(c[1..], i - 1) == FirstValue(c, i)
  {
    FirstPresentSuffix(c, i);
  }

  lemma ForwardFilledUniform<V>(s: seq<Row<V>>, width: nat)
    requires Uniform(s, width)
    ensures Uniform(ForwardFilled(s), width)
  {
    forall i | 0 <= i < |s|
      ensures |ForwardFilled(s)[i].cells| == width
    {
      if width > 0 {
        ForwardFilledAt(s, width, i, 0);
      } else {
        ForwardFilledEmptyRows(s, i);
      }
    }
  }

  lemma {:induction false} ForwardFilledEmptyRows<V>(s: seq<Row<V>>, i: nat)
    requires Uniform(s, 0) && i < |s|
    ensures |ForwardFilled(s)[i].cells| == 0
  {
    if |s| > 1 && i < |s| - 1 {
      ForwardFilledEmptyRows(s[..|s| - 1], i);
    }
  }

  lemma {:induction false} BackwardFilledEmptyRows<V>(s: seq<Row<V>>, i: nat)
    requires Uniform(s, 0) && i < |s|
    ensures |BackwardFilled(s)[i].cells| == 0
  {
    if |s| > 1 && i > 0 {
      BackwardFilledEmptyRows(s[1..], i - 1);
    }
  }

  lemma BackwardFilledUniform<V>(s: seq<Row<V>>, width: nat)
    requires Uniform(s, width)
    ensures Uniform(BackwardFilled(s), width)
  {
    forall i | 0 <= i < |s|
      ensures |BackwardFilled(s)[i].cells| == width
    {
      if width > 0 {
        BackwardFilledAt(s, width, i, 0);
      } else {
        BackwardFilledEmptyRows(s, i);
      }
    }
  }

  /** Column `j` after `ffill` holds, at each row, the nearest value at or above it. */
  lemma ForwardFilledColumn<V>(s: seq<Row<V>>, width: nat, j: nat)
    requires Uniform(s, width) && j < width
    ensures |Column(ForwardFilled(s), j)| == |s|
    ensures forall m :: 0 <= m < |s| ==> Column(ForwardFilled(s), j)[m] == LastValue(Column(s, j), m)
  {
    forall m | 0 <= m < |s|
      ensures Column(ForwardFilled(s), j)[m] == LastValue(Column(s, j), m)
    {
      ForwardFilledAt(s, width, m, j);
    }
  }

  /** Column `j` after `bfill` holds, at each row, the nearest value at or below it. */
  lemma BackwardFilledColumn<V>(s: seq<Row<V>>, width: nat, j: nat)
    requires Uniform(s, width) && j < width
    ensures |Column(BackwardFilled(s), j)| == |s|
    ensures forall m :: 0 <= m < |s| ==> Column(BackwardFilled(s), j)[m] == FirstValue(Column(s, j), m)
  {
    forall m | 0 <= m < |s|
      ensures Column(BackwardFilled(s), j)[m] == FirstValue(Column(s, j), m)
    {
      BackwardFilledAt(s, width, m, j);
    }
  }

  /** On one column: forward, backward, forward again leaves the nearest earlier value, else the nearest later one. */
  lemma NearestAfterPasses<V>(c: seq<Option<V>>, cf: seq<Option<V>>, cg: seq<Option<V>>, i: nat)
    requires |cf| == |c| && |cg| == |c| && i < |c|
    requires forall m :: 0 <= m < |c| ==> cf[m] == LastValue(c, m)
    requires forall m :: 0 <= m < |c| ==> cg[m] == FirstValue(cf, m)
    ensures LastValue(cg, i) == NearestValue(c, i)
  {
    if LastPresent(c, i).Some? {
      assert cf[i].Some?;
      FirstPresentUnique(cf, i, i);
      assert cg[i] == cf[i];
    } else if FirstPresent(c, i).Some? {
      LaterValueSurvives(c, cf, cg, i, FirstPresent(c, i).value);
    } else {
      EmptyStaysEmpty(c, cf, cg, i);
    }
  }

  lemma LaterValueSurvives<V>(c: seq<Option<V>>, cf: seq<Option<V>>, cg: seq<Option<V>>, i: nat, k: nat)
    requires |cf| == |c| && |cg| == |c| && i < |c|
    requires forall m :: 0 <= m < |c| ==> cf[m] == LastValue(c, m)
    requires forall m :: 0 <= m < |c| ==> cg[m] == FirstValue(cf, m)
    requires LastPresent(c, i).None? && FirstPresent(c, i) == Some(k)
    ensures LastValue(cg, i) == c[k]
  {
    forall m | i <= m < k
      ensures cf[m].None?
    {
      assert LastPresent(c, m).None?;
    }
    assert LastPresent(c, k) == Some(k);
    FirstPresentUnique(cf, i, k);
    assert cg[i] == c[k];
  }

  lemma EmptyStaysEmpty<V>(c: seq<Option<V>>, cf: seq<Option<V>>, cg: seq<Option<V>>, i: nat)
    requires |cf| == |c| && |cg| == |c| && i < |c|
    requires forall m :: 0 <= m < |c| ==> cf[m] == LastValue(c, m)
    requires forall m :: 0 <= m < |c| ==> cg[m] == FirstValue(cf, m)
    requires LastPresent(c, i).None? && FirstPresent(c, i).None?
    ensures LastValue(cg, i).None?
  {
    forall m | 0 <= m < |c|
      ensures cf[m].None?
    {
      assert LastPresent(c, m).None?;
    }
    forall m | 0 <= m <= i
      ensures cg[m].None?
    {
      assert FirstPresent(cf, m).None?;
    }
  }

  /**
   * After the three passes, a cell holds the nearest value at or above it,
   * or, when there is none, the nearest value below it.
   */
  lemma FilledAt<V>(s: seq<Row<V>>, width: nat, i: nat, j: nat)
    requires Uniform(s, width) && i < |s| && j < width
    ensures |Filled(s)[i].cells| == width
    ensures Filled(s)[i].cells[j] == NearestValue(Column(s, j), i)
  {
    var f := ForwardFilled(s);
    ForwardFilledUniform(s, width);
    ForwardFilledColumn(s, width, j);
    var g := BackwardFilled(f);
    BackwardFilledUniform(f, width);
    BackwardFilledColumn(f, width, j);
    ForwardFilledAt(g, width, i, j);
    NearestAfterPasses(Column(s, j), Column(f, j), Column(g, j), i);
  }

  /** `FilledAt` for a column known under another name. */
  lemma FilledColumn<V>(s: seq<Row<V>>, width: nat, j: nat, c: seq<Option<V>>, i: nat)
    requires Uniform(s, width) && j < width && i < |s| && Column(s, j) == c
    ensures |Filled(s)| == |s| && |Filled(s)[i].cells| == width
    ensures Filled(s)[i].cells[j] == NearestValue(c, i)
  {
    FilledAt(s, width, i, j);
  }

  /** A cell is still NaN after filling exactly when its whole column was NaN. */
  lemma FilledMissingIff<V>(s: seq<Row<V>>, width: nat, i: nat, j: nat)
    requires Uniform(s, width) && i < |s| && j < width
    ensures |Filled(s)[i].cells| == width
    ensures Filled(s)[i].cells[j].None? <==> ColumnEmpty(Column(s, j))
  {
    FilledAt(s, width, i, j);
    var c := Column(s, j);
    if LastPresent(c, i).None? && FirstPresent(c, i).None? {
      forall m | 0 <= m < |c|
        ensures c[m].None?
      {
        if m > i {
          assert i <= m < |c|;
        }
      }
    }
  }

  /** The closing `assert` of `concat` fails exactly when a non-empty table has a column that is NaN all the way down. */
  lemma FilledCompleteIff<V>(s: seq<Row<V>>, width: nat)
    requires Uniform(s, width)
    ensures Uniform(Filled(s), width)
    ensures AllPresent(Filled(s)) <==> !HasEmptyColumn(s, width)
  {
    ForwardFilledUniform(s, width);
    BackwardFilledUniform(ForwardFilled(s), width);
    ForwardFilledUniform(BackwardFilled(ForwardFilled(s)), width);
    var r := Filled(s);
    if HasEmptyColumn(s, width) {
      var j :| 0 <= j < width && ColumnEmpty(Column(s, j));
      FilledMissingIff(s, width, 0, j);
      assert r[0].cells[j].None?;
    } else {
      forall i, j | 0 <= i < |r| && 0 <= j < |r[i].cells|
        ensures r[i].cells[j].Some?
      {
        FilledMissingIff(s, width, i, j);
      }
    }
  }

  /** One more row of `ffill`. */
  lemma ForwardFilledStep<V>(s: seq<Row<V>>, i: nat)
    requires 1 <= i < |s|
    ensures ForwardFilled(s[..i + 1]) ==
      ForwardFilled(s[..i]) + [Row(s[i].timestamp, Overlay(s[i].cells, ForwardFilled(s[..i])[i - 1].cells))]
  {
    assert s[..i + 1][..i] == s[..i];
  }

  /** One more row of `bfill`. */
  lemma BackwardFilledStep<V>(s: seq<Row<V>>, i: nat)
    requires 1 <= i < |s|
    ensures BackwardFilled(s[i - 1..]) ==
      [Row(s[i - 1].timestamp, Overlay(s[i - 1].cells, BackwardFilled(s[i..])[0].cells))] + BackwardFilled(s[i..])
  {
    assert s[i - 1..][1..] == s[i..];
  }

  /** `m.ffill(inplace=True)` on the rows of the merged frame. */
  method FillForward<V>(a: array<Row<V>>)
    modifies a
    ensures a[..] == ForwardFilled(old(a[..]))
  {
    if a.Length == 0 {
      return;
    }
    ghost var s := a[..];
    var i := 1;
    while i < a.Length
      invariant 1 <= i <= a.Length
      invariant a[..i] == ForwardFilled(s[..i])
      invariant a[i..] == s[i..]
    {
      ForwardFilledStep(s, i);
      a[i] := Row(a[i].timestamp, Overlay(a[i].cells, a[i - 1].cells));
      assert a[..i + 1] == a[..i] + [a[i]];
      i := i + 1;
    }
    assert s[..a.Length] == s;
  }

  /** `m.bfill(inplace=True)` on the rows of the merged frame. */
  method FillBackward<V>(a: array<Row<V>>)
    modifies a
    ensures a[..] == BackwardFilled(old(a[..]))
  {
    if a.Length == 0 {
      return;
    }
    ghost var s := a[..];
    var i := a.Length - 1;
    while i > 0
      invariant 0 <= i < a.Length
      invariant a[i..] == BackwardFilled(s[i..])
      invariant a[..i] == s[..i]
    {
      ghost var tail := a[i..];
      assert a[i - 1] == s[i - 1] && a[i] == tail[0];
      var row := Row(a[i - 1].timestamp, Overlay(a[i - 1].cells, a[i].cells));
      BackwardFilledStep(s, i);
      a[i - 1] := row;
      assert a[i..] == tail && a[..i - 1] == s[..i - 1];
      assert a[i - 1..] == [row] + tail;
      i := i - 1;
    }
    assert s[0..] == s;
  }
}
