/**
 * Column naming: the bracket sanitising `read_ulog` applies to every CSV
 * header, and the topic qualification `PX4MessageDict` applies to every
 * column but `timestamp`.
 */
module ColumnNames {

  const TIMESTAMP: string := "timestamp"

  /** `d_col_rename`: `[` and `]` become `_`, every other character is kept. */
  function SanitizeChar(c: char): char
  {
    if c == '[' || c == ']' then '_' else c
  }

  /** `col_rename_pattern.sub(...)` on one column name. */
  function Sanitize(name: string): string
  {
    if name == [] then [] else [SanitizeChar(name[0])] + Sanitize(name[1..])
  }

  /** The list comprehension over `data_new.columns`. */
  function SanitizeColumns(columns: seq<string>): (r: seq<string>)
    ensures |r| == |columns|
    ensures forall i :: 0 <= i < |columns| ==> r[i] == Sanitize(columns[i])
  {
    if columns == [] then [] else [Sanitize(columns[0])] + SanitizeColumns(columns[1..])
  }

  predicate NoBrackets(s: string)
  {
    forall i :: 0 <= i < |s| ==> s[i] != '[' && s[i] != ']'
  }

  /** Sanitising replaces exactly the brackets, position by position. */
  lemma {:induction false} SanitizeAt(name: string)
    ensures |Sanitize(name)| == |name|
    ensures forall i :: 0 <= i < |name| ==>
      Sanitize(name)[i] == (if name[i] == '[' || name[i] == ']' then '_' else name[i])
  {
    if name != [] {
      SanitizeAt(name[1..]);
    }
  }

  /** A sanitised name has no brackets left. */
  lemma SanitizeRemovesBrackets(name: string)
    ensures NoBrackets(Sanitize(name))
  {
    SanitizeAt(name);
  }

  /** A name without brackets is left as it is. */
  lemma {:induction false} SanitizeKeepsClean(name: string)
    requires NoBrackets(name)
    ensures Sanitize(name) == name
  {
    if name != [] {
      SanitizeKeepsClean(name[1..]);
    }
  }

  /** Sanitising twice is sanitising once. */
  lemma SanitizeIdempotent(name: string)
    ensures Sanitize(Sanitize(name)) == Sanitize(name)
  {
    SanitizeRemovesBrackets(name);
    SanitizeKeepsClean(Sanitize(name));
  }

  /** The prefix `t_<topic>__f_` of every qualified name. */
  function Qualifier(topic: string): string
  {
    "t_" + topic + "__f_"
  }

  /** `new_cols[col]` in `PX4MessageDict.__init__`. */
  function QualifiedName(topic: string, col: string): string
  {
    if col == TIMESTAMP then col else Qualifier(topic) + col
  }

  /** Recovers a column's original name from its qualified name. */
  function Unqualified(topic: string, name: string): string
  {
    var q := Qualifier(topic);
    if name != TIMESTAMP && |q| <= |name| && name[..|q|] == q then name[|q|..] else name
  }

  /** `timestamp` keeps its name, every other column gets the topic prefix, and the original name can be read back. */
  lemma QualifiedNameRoundTrip(topic: string, col: string)
    ensures col == TIMESTAMP ==> QualifiedName(topic, col) == TIMESTAMP
    ensures col != TIMESTAMP ==> QualifiedName(topic, col) == Qualifier(topic) + col
    ensures Unqualified(topic, QualifiedName(topic, col)) == col
  {
    var q := Qualifier(topic);
    if col != TIMESTAMP {
      var n := q + col;
      assert n[1] == '_' != TIMESTAMP[1];
      assert n[..|q|] == q;
      assert n[|q|..] == col;
    }
  }

  /** No two consecutive underscores. */
  predicate NoDoubleUnderscore(s: string)
  {
    forall i :: 0 <= i < |s| - 1 ==> !(s[i] == '_' && s[i + 1] == '_')
  }

  /**
   * Qualified names are unique across the store: two columns get the same
   * name only if both are `timestamp`, or they are the same column of the
   * same topic, provided topic names have no `__`.
   */
  lemma QualifiedNamesDistinct(x: string, c1: string, y: string, c2: string)
    requires NoDoubleUnderscore(x) && NoDoubleUnderscore(y)
    ensures QualifiedName(x, c1) == QualifiedName(y, c2) ==>
      (c1 == TIMESTAMP && c2 == TIMESTAMP) || (x == y && c1 == c2)
  {
    var n1, n2 := QualifiedName(x, c1), QualifiedName(y, c2);
    if c1 == TIMESTAMP && c2 == TIMESTAMP {
    } else if c1 == TIMESTAMP || c2 == TIMESTAMP {
      assert n1[1] != n2[1];
    } else if |x| == |y| {
      if n1 == n2 {
        assert x == n1[2..2 + |x|] == n2[2..2 + |y|] == y;
        assert c1 == n1[|x| + 6..] == n2[|y| + 6..] == c2;
      }
    } else if |x| < |y| {
      PrefixDiffers(x, c1, y, c2);
    } else {
      PrefixDiffers(y, c2, x, c1);
    }
  }

  /** A shorter topic name never qualifies to the same name as a longer one without `__`. */
  lemma PrefixDiffers(x: string, c1: string, y: string, c2: string)
    requires NoDoubleUnderscore(y)
    requires |x| < |y|
    ensures Qualifier(x) + c1 != Qualifier(y) + c2
  {
    var n1, n2 := Qualifier(x) + c1, Qualifier(y) + c2;
    var k := |x|;
    assert n1[2 + k] == '_' && n1[3 + k] == '_' && n1[4 + k] == 'f';
    assert n2[2 + k] == y[k];
    if k + 1 < |y| {
      assert n2[3 + k] == y[k + 1];
      assert !(y[k] == '_' && y[k + 1] == '_');
      assert n1[2 + k] != n2[2 + k] || n1[3 + k] != n2[3 + k];
    } else {
      assert n2[4 + k] == '_';
      assert n1[4 + k] != n2[4 + k];
    }
  }

  /** Without that proviso names can clash: topic `a`, column `_f_b` against topic `a__f`, column `b`. */
  lemma QualifiedNamesCanClash()
    ensures QualifiedName("a", "_f_b") == QualifiedName("a__f", "b")
    ensures !NoDoubleUnderscore("a__f")
  {
    assert "a__f"[1] == '_' && "a__f"[2] == '_';
  }

  /** The name a CSV header ends up with in the store: sanitised by `read_ulog`, then qualified. */
  function StoredName(topic: string, header: string): string
  {
    QualifiedName(topic, Sanitize(header))
  }

  /** Stored names carry no brackets when the topic name has none. */
  lemma StoredNameHasNoBrackets(topic: string, header: string)
    requires NoBrackets(topic)
    ensures NoBrackets(StoredName(topic, header))
  {
    SanitizeRemovesBrackets(header);
    var s := Sanitize(header);
    if s != TIMESTAMP {
      var n := Qualifier(topic) + s;
      forall i | 0 <= i < |n|
        ensures n[i] != '[' && n[i] != ']'
      {
        if i < 2 {
        } else if i < 2 + |topic| {
          assert n[i] == topic[i - 2];
        } else if i < 6 + |topic| {
        } else {
          assert n[i] == s[i - 6 - |topic|];
        }
      }
    }
  }
}
