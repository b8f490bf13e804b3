/**
 * The table model: a data frame is a sequence of column labels and a sequence
 * of rows, each row holding one cell per column, in column order. Labels need
 * not be distinct (pandas allows repeated labels); looking a column up by label
 * finds the first column with that label.
 *
 * The functions here are the in-place frame operations the cleaning functions
 * are built from, stated on values.
 */
module Tables {
  import opened Wrappers
  import opened Text

  /** A cell: a string, an integer, a missing value (NaN, NaT, None) or anything else (a float, a date). */
  datatype Value = Str(s: string) | Int(i: int) | Missing | Other

  type Row = seq<Value>

  datatype Table = Table(columns: seq<string>, rows: seq<Row>)

  /** A column the source looks up is not there: pandas raises `KeyError` naming the absent labels. */
  datatype Error = KeyError(labels: seq<string>)

  /** Every row has one cell per column. */
  predicate WellFormed(t: Table) {
    forall i :: 0 <= i < |t.rows| ==> |t.rows[i]| == |t.columns|
  }

  predicate Distinct(s: seq<string>) {
    forall a, b :: 0 <= a < b < |s| ==> s[a] != s[b]
  }

  /** No two labels differ only in case, so lower-casing all labels keeps them apart. */
  predicate CaseDistinct(s: seq<string>) {
    forall a, b :: 0 <= a < b < |s| ==> Lower(s[a]) != Lower(s[b])
  }

  /** The position of the first column labelled `c`. */
  function IndexOf(cols: seq<string>, c: string): (k: nat)
    requires c in cols
    ensures k < |cols| && cols[k] == c
    ensures forall j :: 0 <= j < k ==> cols[j] != c
  {
    if cols[0] == c then 0 else 1 + IndexOf(cols[1..], c)
  }

  /** `df[c]` in row `i`. */
  function Cell(t: Table, i: nat, c: string): Value
    requires WellFormed(t) && i < |t.rows| && c in t.columns
  {
    t.rows[i][IndexOf(t.columns, c)]
  }

  predicate InBounds<T>(s: seq<T>, idx: seq<nat>) {
    forall k :: 0 <= k < |idx| ==> idx[k] < |s|
  }

  /** The elements of `s` at the positions `idx`, in that order. */
  function Project<T>(s: seq<T>, idx: seq<nat>): (r: seq<T>)
    requires InBounds(s, idx)
    ensures |r| == |idx|
  {
    seq(|idx|, k requires 0 <= k < |idx| => s[idx[k]])
  }

  predicate Increasing(idx: seq<nat>) {
    forall a, b :: 0 <= a < b < |idx| ==> idx[a] < idx[b]
  }

  /** The positions, from `from` on, of the labels that are not in `drop`, in order. */
  function KeptFrom(cols: seq<string>, drop: seq<string>, from: nat): (idx: seq<nat>)
    requires from <= |cols|
    ensures Increasing(idx)
    ensures forall k :: 0 <= k < |idx| ==> from <= idx[k] < |cols| && cols[idx[k]] !in drop
    ensures forall j :: from <= j < |cols| && cols[j] !in drop ==> j in idx
    decreases |cols| - from
  {
    if from == |cols| then []
    else if cols[from] in drop then KeptFrom(cols, drop, from + 1)
    else [from] + KeptFrom(cols, drop, from + 1)
  }

  /** The labels of `labels` that are not columns, in order. */
  function Absent(cols: seq<string>, labels: seq<string>): (r: seq<string>)
    ensures forall c :: c in r <==> c in labels && c !in cols
  {
    if labels == [] then []
    else (if labels[0] in cols then [] else [labels[0]]) + Absent(cols, labels[1..])
  }

  /** The columns at positions `idx`, in that order. */
  function Select(t: Table, idx: seq<nat>): (r: Table)
    requires WellFormed(t) && InBounds(t.columns, idx)
    ensures WellFormed(r) && |r.rows| == |t.rows| && r.columns == Project(t.columns, idx)
  {
    Table(Project(t.columns, idx), seq(|t.rows|, i requires 0 <= i < |t.rows| => Project(t.rows[i], idx)))
  }

  function RenameLabel(m: map<string, string>, c: string): string {
    if c in m then m[c] else c
  }

  /**
   * `df.rename(columns=m, inplace=True)`: every label that is a key of `m` is
   * replaced by its image, keys that are not labels are ignored, and no cell
   * changes.
   */
  function Rename(t: Table, m: map<string, string>): (r: Table)
    ensures r.rows == t.rows && |r.columns| == |t.columns|
    ensures forall j :: 0 <= j < |t.columns| ==> r.columns[j] == RenameLabel(m, t.columns[j])
    ensures WellFormed(t) ==> WellFormed(r)
  {
    Table(seq(|t.columns|, j requires 0 <= j < |t.columns| => RenameLabel(m, t.columns[j])), t.rows)
  }

  /**
   * `df[c] = f(df[c])`: the column must exist (otherwise `KeyError`); every
   * cell of the first column labelled `c` is rewritten by `f`, and no other
   * cell and no label changes.
   */
  function MapColumn(t: Table, c: string, f: Value -> Value): (r: Result<Table, Error>)
    requires WellFormed(t)
    ensures r.Success? <==> c in t.columns
    ensures r.Failure? ==> r.error == KeyError([c])
    ensures r.Success? ==> WellFormed(r.value) && r.value.columns == t.columns && |r.value.rows| == |t.rows|
    ensures r.Success? ==> forall i :: 0 <= i < |t.rows| ==> Cell(r.value, i, c) == f(Cell(t, i, c))
    ensures r.Success? ==> forall i, j :: 0 <= i < |t.rows| && 0 <= j < |t.columns| && t.columns[j] != c ==>
      r.value.rows[i][j] == t.rows[i][j]
    ensures r.Success? ==> forall i, d :: 0 <= i < |t.rows| && d in t.columns && d != c ==>
      Cell(r.value, i, d) == Cell(t, i, d)
  {
    if c !in t.columns then Failure(KeyError([c]))
    else
      var j := IndexOf(t.columns, c);
      Success(Table(t.columns, seq(|t.rows|, i requires 0 <= i < |t.rows| => t.rows[i][j := f(t.rows[i][j])])))
  }

  /**
   * `df.drop(columns=labels, inplace=True)`: every label must be a column
   * (otherwise `KeyError` naming the absent ones); every column with one of the
   * labels goes, the others keep their order and their cells.
   */
  function Drop(t: Table, labels: seq<string>): (r: Result<Table, Error>)
    requires WellFormed(t)
    ensures r.Success? <==> forall c :: c in labels ==> c in t.columns
    ensures r.Failure? ==> r.error == KeyError(Absent(t.columns, labels))
    ensures r.Success? ==> WellFormed(r.value) && |r.value.rows| == |t.rows|
    ensures r.Success? ==> forall c :: c in r.value.columns <==> c in t.columns && c !in labels
    ensures r.Success? ==> forall i, c :: 0 <= i < |t.rows| && c in r.value.columns ==>
      Cell(r.value, i, c) == Cell(t, i, c)
    ensures r.Success? && CaseDistinct(t.columns) ==> CaseDistinct(r.value.columns)
    ensures r.Success? ==> r.value == Select(t, KeptFrom(t.columns, labels, 0))
  {
    var missing := Absent(t.columns, labels);
    if missing != [] then
      assert missing[0] in labels && missing[0] !in t.columns;
      Failure(KeyError(missing))
    else
      var idx := KeptFrom(t.columns, labels, 0);
      DropKeepsCells(t, labels, idx);
      Success(Select(t, idx))
  }

  /** A label that is kept is found at the kept position of its first occurrence. */
  lemma KeptIndexOf(cols: seq<string>, drop: seq<string>, c: string)
    requires c in cols && c !in drop
    ensures InBounds(cols, KeptFrom(cols, drop, 0))
    ensures c in Project(cols, KeptFrom(cols, drop, 0))
    ensures KeptFrom(cols, drop, 0)[IndexOf(Project(cols, KeptFrom(cols, drop, 0)), c)] == IndexOf(cols, c)
  {
    var idx := KeptFrom(cols, drop, 0);
    var kept := Project(cols, idx);
    var p := IndexOf(cols, c);
    assert p in idx;
    var q' :| 0 <= q' < |idx| && idx[q'] == p;
    assert kept[q'] == c;
    var q := IndexOf(kept, c);
    assert q <= q';
    assert cols[idx[q]] == c;
    assert !(idx[q] < p);
    assert q == q';
  }

  lemma DropKeepsCells(t: Table, labels: seq<string>, idx: seq<nat>)
    requires WellFormed(t) && idx == KeptFrom(t.columns, labels, 0)
    ensures forall c :: c in Select(t, idx).columns <==> c in t.columns && c !in labels
    ensures forall i, c :: 0 <= i < |t.rows| && c in Select(t, idx).columns ==>
      Cell(Select(t, idx), i, c) == Cell(t, i, c)
    ensures CaseDistinct(t.columns) ==> CaseDistinct(Select(t, idx).columns)
  {
    var r := Select(t, idx);
    forall c | c in t.columns && c !in labels ensures c in r.columns {
      KeptIndexOf(t.columns, labels, c);
    }
    forall c | c in r.columns ensures c in t.columns && c !in labels {
      var q :| 0 <= q < |r.columns| && r.columns[q] == c;
      assert t.columns[idx[q]] == c;
    }
    forall i, c | 0 <= i < |t.rows| && c in r.columns ensures Cell(r, i, c) == Cell(t, i, c) {
      KeptIndexOf(t.columns, labels, c);
      var q := IndexOf(r.columns, c);
      assert r.rows[i][q] == t.rows[i][idx[q]];
    }
  }

  /** `df.columns = df.columns.str.lower()`: every label lower-cased, no cell changed. */
  function LowerColumnNames(t: Table): (r: Table)
    ensures r.rows == t.rows && |r.columns| == |t.columns|
    ensures forall j :: 0 <= j < |t.columns| ==> r.columns[j] == Lower(t.columns[j])
    ensures forall c :: c in r.columns ==> NoUpper(c)
    ensures WellFormed(t) ==> WellFormed(r)
  {
    Table(seq(|t.columns|, j requires 0 <= j < |t.columns| => Lower(t.columns[j])), t.rows)
  }

  /**
   * `df[c] = f(df[c])` for each label of `cols` in turn, as a loop over the
   * labels does: the first label that is not a column raises `KeyError`.
   */
  function MapColumns(t: Table, cols: seq<string>, f: Value -> Value): (r: Result<Table, Error>)
    requires WellFormed(t)
    ensures r.Success? <==> forall c :: c in cols ==> c in t.columns
    ensures r.Success? ==> WellFormed(r.value) && r.value.columns == t.columns && |r.value.rows| == |t.rows|
    ensures r.Success? ==> forall i, d :: 0 <= i < |t.rows| && d in t.columns && d !in cols ==>
      Cell(r.value, i, d) == Cell(t, i, d)
    ensures r.Success? ==> forall i, j :: 0 <= i < |t.rows| && 0 <= j < |t.columns| && t.columns[j] !in cols ==>
      r.value.rows[i][j] == t.rows[i][j]
    ensures r.Success? && Distinct(cols) ==> forall i, c :: 0 <= i < |t.rows| && c in cols ==>
      Cell(r.value, i, c) == f(Cell(t, i, c))
    ensures r.Failure? ==> exists k :: 0 <= k < |cols| && cols[k] !in t.columns && r.error == KeyError([cols[k]])
    decreases |cols|
  {
    if cols == [] then Success(t)
    else
      var next :- MapColumn(t, cols[0], f);
      var r := MapColumns(next, cols[1..], f);
      assert r.Success? && Distinct(cols) ==> Distinct(cols[1..]) && cols[0] !in cols[1..];
      r
  }

  /**
   * `df[cols] = df[cols].apply(f)`: selecting the columns raises `KeyError`
   * naming every absent label before anything changes; then each selected
   * column is rewritten.
   */
  function AssignColumns(t: Table, cols: seq<string>, f: Value -> Value): (r: Result<Table, Error>)
    requires WellFormed(t)
    ensures r.Success? <==> forall c :: c in cols ==> c in t.columns
    ensures r.Failure? ==> r.error == KeyError(Absent(t.columns, cols))
    ensures r.Success? ==> WellFormed(r.value) && r.value.columns == t.columns && |r.value.rows| == |t.rows|
    ensures r.Success? ==> forall i, d :: 0 <= i < |t.rows| && d in t.columns && d !in cols ==>
      Cell(r.value, i, d) == Cell(t, i, d)
    ensures r.Success? && Distinct(cols) ==> forall i, c :: 0 <= i < |t.rows| && c in cols ==>
      Cell(r.value, i, c) == f(Cell(t, i, c))
  {
    var missing := Absent(t.columns, cols);
    if missing != [] then
      assert missing[0] in cols && missing[0] !in t.columns;
      Failure(KeyError(missing))
    else MapColumns(t, cols, f)
  }

  /** Looking a label up in a concatenation finds it in the first part when it is there. */
  lemma {:induction false} IndexOfConcat(a: seq<string>, b: seq<string>, c: string)
    requires c in a || c in b
    ensures c in a + b
    ensures IndexOf(a + b, c) == if c in a then IndexOf(a, c) else |a| + IndexOf(b, c)
  {
    if a != [] && a[0] != c {
      assert (a + b)[1..] == a[1..] + b;
      IndexOfConcat(a[1..], b, c);
    } else if a == [] {
      assert a + b == b;
    }
  }

  /** A table whose rows begin with the rows of `t` has the cells of `t` in the columns of `t`. */
  lemma PrefixCell(t: Table, u: Table, i: nat, j: nat, c: string)
    requires WellFormed(t) && WellFormed(u) && i < |t.rows| && j < |u.rows| && c in t.columns
    requires |t.columns| <= |u.columns| && u.columns[..|t.columns|] == t.columns
    requires u.rows[j][..|t.columns|] == t.rows[i]
    ensures c in u.columns && Cell(u, j, c) == Cell(t, i, c)
  {
    var n := |t.columns|;
    assert u.columns == t.columns + u.columns[n..];
    IndexOfConcat(t.columns, u.columns[n..], c);
    assert u.rows[j][IndexOf(t.columns, c)] == u.rows[j][..n][IndexOf(t.columns, c)];
  }

  /**
   * A table whose columns end with the columns of `t` kept by `KeptFrom`, and
   * whose row `j` ends with the matching cells of row `k` of `t`, has the cells
   * of that row in every kept column whose label the first part does not use.
   */
  lemma SuffixCell(a: seq<string>, t: Table, drop: seq<string>, k: nat, u: Table, j: nat, d: string)
    requires WellFormed(t) && WellFormed(u) && k < |t.rows| && j < |u.rows|
    requires d in t.columns && d !in drop && d !in a
    requires u.columns == a + Project(t.columns, KeptFrom(t.columns, drop, 0))
    requires u.rows[j][|a|..] == Project(t.rows[k], KeptFrom(t.columns, drop, 0))
    ensures d in u.columns && Cell(u, j, d) == Cell(t, k, d)
  {
    var keep := KeptFrom(t.columns, drop, 0);
    var kept := Project(t.columns, keep);
    KeptIndexOf(t.columns, drop, d);
    var q := IndexOf(kept, d);
    IndexOfConcat(a, kept, d);
    assert IndexOf(u.columns, d) == |a| + q;
    var tail := u.rows[j][|a|..];
    assert u.rows[j][|a| + q] == tail[q];
    assert tail[q] == t.rows[k][keep[q]];
  }

  /** Keeping some labels, in order, keeps them apart up to case. */
  lemma ProjectCaseDistinct(cols: seq<string>, idx: seq<nat>)
    requires InBounds(cols, idx) && Increasing(idx) && CaseDistinct(cols)
    ensures CaseDistinct(Project(cols, idx))
  {
    var p := Project(cols, idx);
    forall a, b | 0 <= a < b < |p| ensures Lower(p[a]) != Lower(p[b]) {
      assert p[a] == cols[idx[a]] && p[b] == cols[idx[b]] && idx[a] < idx[b];
    }
  }

  /** When labels stay apart up to case, the lower-cased label of a column finds that column after lower-casing all labels. */
  lemma LowerColumnNamesCell(t: Table, i: nat, d: string)
    requires WellFormed(t) && CaseDistinct(t.columns) && i < |t.rows| && d in t.columns
    ensures Lower(d) in LowerColumnNames(t).columns && Cell(LowerColumnNames(t), i, Lower(d)) == Cell(t, i, d)
  {
    var u := LowerColumnNames(t);
    var p := IndexOf(t.columns, d);
    assert u.columns[p] == Lower(d);
    assert forall j :: 0 <= j < p ==> u.columns[j] != Lower(d) by {
      forall j | 0 <= j < p ensures u.columns[j] != Lower(d) {
        assert Lower(t.columns[j]) != Lower(t.columns[p]);
      }
    }
    var q := IndexOf(u.columns, Lower(d));
    assert q == p;
  }

  /** Lower-casing the labels and then dropping others keeps the column with label `d` under `Lower(d)`. */
  lemma LowerThenDropCell(t: Table, drops: seq<string>, i: nat, d: string)
    requires WellFormed(t) && CaseDistinct(t.columns) && i < |t.rows| && d in t.columns && Lower(d) !in drops
    requires Drop(LowerColumnNames(t), drops).Success?
    ensures var r := Drop(LowerColumnNames(t), drops).value;
      Lower(d) in r.columns && Cell(r, i, Lower(d)) == Cell(t, i, d)
  {
    LowerColumnNamesCell(t, i, d);
  }

  /** Lower-cased labels are a label of the table lower-cased, and conversely. */
  lemma LowerColumnNamesLabels(t: Table, c: string)
    ensures c in LowerColumnNames(t).columns <==> exists d :: d in t.columns && Lower(d) == c
  {
    var u := LowerColumnNames(t);
    if c in u.columns {
      var j :| 0 <= j < |u.columns| && u.columns[j] == c;
      assert t.columns[j] in t.columns && Lower(t.columns[j]) == c;
    }
    if exists d :: d in t.columns && Lower(d) == c {
      var d :| d in t.columns && Lower(d) == c;
      var j :| 0 <= j < |t.columns| && t.columns[j] == d;
      assert u.columns[j] == c;
    }
  }

  /**
   * When `src` is the only label that renames to `dst`, the renamed table has
   * in column `dst` the cells the original has in column `src`.
   */
  lemma RenameCell(t: Table, m: map<string, string>, src: string, dst: string, i: nat)
    requires WellFormed(t) && i < |t.rows| && src in t.columns && RenameLabel(m, src) == dst
    requires forall j :: 0 <= j < |t.columns| && RenameLabel(m, t.columns[j]) == dst ==> t.columns[j] == src
    ensures dst in Rename(t, m).columns && Cell(Rename(t, m), i, dst) == Cell(t, i, src)
  {
    var u := Rename(t, m);
    var p := IndexOf(t.columns, src);
    assert u.columns[p] == dst;
    var q := IndexOf(u.columns, dst);
    assert q <= p;
    assert t.columns[q] == src;
  }

  /** Two different labels of a case-distinct table lower-case differently. */
  lemma CaseDistinctLower(cols: seq<string>, a: string, b: string)
    requires CaseDistinct(cols) && a in cols && b in cols && a != b
    ensures Lower(a) != Lower(b)
  {
    var p := IndexOf(cols, a);
    var q := IndexOf(cols, b);
    if p < q {
      assert Lower(cols[p]) != Lower(cols[q]);
    } else {
      assert Lower(cols[q]) != Lower(cols[p]);
    }
  }
}
