/**
 * The merge engine: `pd.merge` / `DataFrame.merge` on key columns, with the
 * inner and the left strategy. For each left row, in order, the output holds
 * one row per right row whose key cells equal the left row's, in right order;
 * a left join gives a left row without a match one row whose right-hand cells
 * are missing. Missing keys compare equal to each other, as in pandas.
 *
 * An output row is the left row followed by the right row's non-key cells (a
 * right key column whose label is also the left key label is not repeated).
 */
module Join {
  import opened Wrappers
  import opened Tables

  datatype How = Left | Inner

  predicate HasKeys(t: Table, keys: seq<string>) {
    forall k :: k in keys ==> k in t.columns
  }

  function KeyPositions(t: Table, keys: seq<string>): (idx: seq<nat>)
    requires HasKeys(t, keys)
    ensures |idx| == |keys| && InBounds(t.columns, idx)
    ensures forall n :: 0 <= n < |keys| ==> idx[n] == IndexOf(t.columns, keys[n])
  {
    seq(|keys|, n requires 0 <= n < |keys| => IndexOf(t.columns, keys[n]))
  }

  /** The positions, from `from` on, of the right rows whose key cells are `key`, in order. */
  function MatchesFrom(key: seq<Value>, right: Table, ri: seq<nat>, from: nat): (ms: seq<nat>)
    requires WellFormed(right) && InBounds(right.columns, ri) && from <= |right.rows|
    ensures forall m :: 0 <= m < |ms| ==> from <= ms[m] < |right.rows|
    decreases |right.rows| - from
  {
    if from == |right.rows| then []
    else (if Project(right.rows[from], ri) == key then [from] else []) + MatchesFrom(key, right, ri, from + 1)
  }

  /** The positions found are exactly those of the right rows, from `from` on, whose key cells are `key`. */
  lemma MatchesFromExact(key: seq<Value>, right: Table, ri: seq<nat>, from: nat)
    requires WellFormed(right) && InBounds(right.columns, ri) && from <= |right.rows|
    ensures var ms := MatchesFrom(key, right, ri, from);
      (forall m :: 0 <= m < |ms| ==> Project(right.rows[ms[m]], ri) == key) &&
      (forall k :: from <= k < |right.rows| && Project(right.rows[k], ri) == key ==> k in ms)
  {
    forall m | 0 <= m < |MatchesFrom(key, right, ri, from)|
      ensures Project(right.rows[MatchesFrom(key, right, ri, from)[m]], ri) == key
    {
      MatchesFromSound(key, right, ri, from, m);
    }
    forall k | from <= k < |right.rows| && Project(right.rows[k], ri) == key
      ensures k in MatchesFrom(key, right, ri, from)
    {
      MatchesFromComplete(key, right, ri, from, k);
    }
  }

  /** Every position found holds a right row whose key cells are `key`. */
  lemma {:induction false} MatchesFromSound(key: seq<Value>, right: Table, ri: seq<nat>, from: nat, m: nat)
    requires WellFormed(right) && InBounds(right.columns, ri) && from <= |right.rows|
    requires m < |MatchesFrom(key, right, ri, from)|
    ensures Project(right.rows[MatchesFrom(key, right, ri, from)[m]], ri) == key
    decreases |right.rows| - from
  {
    var here: seq<nat> := if Project(right.rows[from], ri) == key then [from] else [];
    var rest := MatchesFrom(key, right, ri, from + 1);
    var ms := MatchesFrom(key, right, ri, from);
    assert ms == here + rest;
    if m < |here| {
      assert ms[m] == from;
    } else {
      MatchesFromSound(key, right, ri, from + 1, m - |here|);
      assert ms[m] == rest[m - |here|];
    }
  }

  /** Every right row from `from` on whose key cells are `key` is found. */
  lemma {:induction false} MatchesFromComplete(key: seq<Value>, right: Table, ri: seq<nat>, from: nat, k: nat)
    requires WellFormed(right) && InBounds(right.columns, ri) && from <= k < |right.rows|
    requires Project(right.rows[k], ri) == key
    ensures k in MatchesFrom(key, right, ri, from)
    decreases |right.rows| - from
  {
    var here: seq<nat> := if Project(right.rows[from], ri) == key then [from] else [];
    var rest := MatchesFrom(key, right, ri, from + 1);
    assert MatchesFrom(key, right, ri, from) == here + rest;
    if k == from {
      assert here == [from];
    } else {
      MatchesFromComplete(key, right, ri, from + 1, k);
    }
  }

  /** Looking on from `from` finds the row at `from` when its keys are `key`, then those after it. */
  lemma MatchesStep(key: seq<Value>, right: Table, ri: seq<nat>, from: nat)
    requires WellFormed(right) && InBounds(right.columns, ri) && from < |right.rows|
    ensures |MatchesFrom(key, right, ri, from)| ==
      (if Project(right.rows[from], ri) == key then 1 else 0) + |MatchesFrom(key, right, ri, from + 1)|
  {
  }

  function Nulls(n: nat): (r: Row)
    ensures |r| == n && forall k :: 0 <= k < n ==> r[k] == Missing
  {
    seq(n, _ => Missing)
  }

  /** The output rows that the left row `l` gives. */
  function JoinRow(l: Row, li: seq<nat>, right: Table, ri: seq<nat>, keep: seq<nat>, how: How): (out: seq<Row>)
    requires InBounds(l, li) && WellFormed(right) && InBounds(right.columns, ri) && InBounds(right.columns, keep)
    ensures forall j :: 0 <= j < |out| ==> |out[j]| == |l| + |keep| && out[j][..|l|] == l
  {
    var ms := MatchesFrom(Project(l, li), right, ri, 0);
    if ms == [] then (if how == Left then [l + Nulls(|keep|)] else [])
    else seq(|ms|, m requires 0 <= m < |ms| => l + Project(right.rows[ms[m]], keep))
  }

  /** The output rows that the left rows from `from` on give, in left order. */
  function JoinFrom(left: Table, li: seq<nat>, right: Table, ri: seq<nat>, keep: seq<nat>, how: How, from: nat): (out: seq<Row>)
    requires WellFormed(left) && InBounds(left.columns, li)
    requires WellFormed(right) && InBounds(right.columns, ri) && InBounds(right.columns, keep)
    requires from <= |left.rows|
    ensures forall j :: 0 <= j < |out| ==> |out[j]| == |left.columns| + |keep|
    decreases |left.rows| - from
  {
    if from == |left.rows| then []
    else JoinRow(left.rows[from], li, right, ri, keep, how) + JoinFrom(left, li, right, ri, keep, how, from + 1)
  }

  /** A left row gives one output row per match, and in a left join one row when nothing matches. */
  lemma JoinRowSize(l: Row, li: seq<nat>, right: Table, ri: seq<nat>, keep: seq<nat>, how: How)
    requires InBounds(l, li) && WellFormed(right) && InBounds(right.columns, ri) && InBounds(right.columns, keep)
    ensures var n := |MatchesFrom(Project(l, li), right, ri, 0)|;
      |JoinRow(l, li, right, ri, keep, how)| == if how == Left then Max1(n) else n
  {
  }

  /** The left rows from `from` on give the rows of the row at `from`, then those of the rows after it. */
  lemma JoinFromStep(left: Table, li: seq<nat>, right: Table, ri: seq<nat>, keep: seq<nat>, how: How, from: nat)
    requires WellFormed(left) && InBounds(left.columns, li)
    requires WellFormed(right) && InBounds(right.columns, ri) && InBounds(right.columns, keep)
    requires from < |left.rows|
    ensures |JoinFrom(left, li, right, ri, keep, how, from)| ==
      |JoinRow(left.rows[from], li, right, ri, keep, how)| + |JoinFrom(left, li, right, ri, keep, how, from + 1)|
  {
  }

  /** The key labels that are the same on both sides: their right-hand column is not repeated. */
  function SharedKeys(leftOn: seq<string>, rightOn: seq<string>): seq<string>
    requires |leftOn| == |rightOn|
  {
    if leftOn == [] then []
    else (if leftOn[0] == rightOn[0] then [leftOn[0]] else []) + SharedKeys(leftOn[1..], rightOn[1..])
  }

  /** The first key, taken pair by pair and right side first, that is not a column. */
  function FirstAbsentKey(left: Table, right: Table, leftOn: seq<string>, rightOn: seq<string>): (r: Option<string>)
    requires |leftOn| == |rightOn|
    ensures r.None? <==> HasKeys(left, leftOn) && HasKeys(right, rightOn)
    ensures r.Some? ==> (r.value in leftOn && r.value !in left.columns) || (r.value in rightOn && r.value !in right.columns)
  {
    if leftOn == [] then None
    else if rightOn[0] !in right.columns then Some(rightOn[0])
    else if leftOn[0] !in left.columns then Some(leftOn[0])
    else FirstAbsentKey(left, right, leftOn[1..], rightOn[1..])
  }

  /** Positions of the right-hand columns that appear in the output. */
  function RightKept(right: Table, leftOn: seq<string>, rightOn: seq<string>): (keep: seq<nat>)
    requires |leftOn| == |rightOn|
    ensures InBounds(right.columns, keep)
  {
    KeptFrom(right.columns, SharedKeys(leftOn, rightOn), 0)
  }

  /**
   * `pd.merge(left, right, left_on=leftOn, right_on=rightOn, how=how)`; with
   * equal key lists it is `left.merge(right, on=keys, how=how)`. A key column
   * that is absent raises `KeyError`.
   */
  function Merge(left: Table, right: Table, leftOn: seq<string>, rightOn: seq<string>, how: How): (r: Result<Table, Error>)
    requires WellFormed(left) && WellFormed(right) && |leftOn| == |rightOn|
    ensures r.Success? <==> HasKeys(left, leftOn) && HasKeys(right, rightOn)
    ensures r.Failure? ==> exists k :: (r.error == KeyError([k]) &&
      ((k in leftOn && k !in left.columns) || (k in rightOn && k !in right.columns)))
    ensures r.Success? ==> WellFormed(r.value)
    ensures r.Success? ==> r.value.columns == left.columns + Project(right.columns, RightKept(right, leftOn, rightOn))
  {
    match FirstAbsentKey(left, right, leftOn, rightOn)
    case Some(k) => Failure(KeyError([k]))
    case None =>
      var li := KeyPositions(left, leftOn);
      var ri := KeyPositions(right, rightOn);
      var keep := RightKept(right, leftOn, rightOn);
      Success(Table(left.columns + Project(right.columns, keep), JoinFrom(left, li, right, ri, keep, how, 0)))
  }

  // Reference definitions, stated on cells rather than on positions.

  /** Left row `i` and right row `k` have equal cells in every pair of key columns. */
  predicate KeysAgree(left: Table, i: nat, right: Table, k: nat, leftOn: seq<string>, rightOn: seq<string>)
    requires WellFormed(left) && WellFormed(right) && HasKeys(left, leftOn) && HasKeys(right, rightOn)
    requires |leftOn| == |rightOn| && i < |left.rows| && k < |right.rows|
  {
    forall n :: 0 <= n < |leftOn| ==> Cell(left, i, leftOn[n]) == Cell(right, k, rightOn[n])
  }

  /** The number of right rows, from `from` on, whose keys agree with left row `i`. */
  function MatchCount(left: Table, i: nat, right: Table, leftOn: seq<string>, rightOn: seq<string>, from: nat): nat
    requires WellFormed(left) && WellFormed(right) && HasKeys(left, leftOn) && HasKeys(right, rightOn)
    requires |leftOn| == |rightOn| && i < |left.rows| && from <= |right.rows|
    decreases |right.rows| - from
  {
    if from == |right.rows| then 0
    else
      var here := if KeysAgree(left, i, right, from, leftOn, rightOn) then 1 else 0;
      here + MatchCount(left, i, right, leftOn, rightOn, from + 1)
  }

  function Max1(n: nat): nat {
    if n == 0 then 1 else n
  }

  /** The size of a join: the sum over the left rows from `from` on of their match counts (at least one each in a left join). */
  function JoinSize(left: Table, right: Table, leftOn: seq<string>, rightOn: seq<string>, how: How, from: nat): nat
    requires WellFormed(left) && WellFormed(right) && HasKeys(left, leftOn) && HasKeys(right, rightOn)
    requires |leftOn| == |rightOn| && from <= |left.rows|
    decreases |left.rows| - from
  {
    if from == |left.rows| then 0
    else
      var c := MatchCount(left, from, right, leftOn, rightOn, 0);
      (if how == Left then Max1(c) else c) + JoinSize(left, right, leftOn, rightOn, how, from + 1)
  }

  function Replicate<T>(x: T, n: nat): (r: seq<T>)
    ensures |r| == n && forall j :: 0 <= j < n ==> r[j] == x
  {
    seq(n, _ => x)
  }

  /** The left rows from `from` on, each repeated as often as the join emits it. */
  function LeftPartsFrom(left: Table, right: Table, leftOn: seq<string>, rightOn: seq<string>, how: How, from: nat): seq<Row>
    requires WellFormed(left) && WellFormed(right) && HasKeys(left, leftOn) && HasKeys(right, rightOn)
    requires |leftOn| == |rightOn| && from <= |left.rows|
    decreases |left.rows| - from
  {
    if from == |left.rows| then []
    else
      var c := MatchCount(left, from, right, leftOn, rightOn, 0);
      Replicate(left.rows[from], if how == Left then Max1(c) else c) + LeftPartsFrom(left, right, leftOn, rightOn, how, from + 1)
  }

  /** The first `n` cells of every row. */
  function Prefixes(rows: seq<Row>, n: nat): (r: seq<Row>)
    requires forall j :: 0 <= j < |rows| ==> n <= |rows[j]|
    ensures |r| == |rows| && forall j :: 0 <= j < |rows| ==> r[j] == rows[j][..n]
  {
    seq(|rows|, j requires 0 <= j < |rows| => rows[j][..n])
  }

  /**
   * Output row `row` is left row `i` followed by the kept cells of a right row
   * whose keys agree with it or, in a left join of a left row that no right row
   * agrees with, by missing cells.
   */
  predicate JoinedFrom(left: Table, right: Table, leftOn: seq<string>, rightOn: seq<string>, how: How, i: nat, row: Row)
    requires WellFormed(left) && WellFormed(right) && HasKeys(left, leftOn) && HasKeys(right, rightOn)
    requires |leftOn| == |rightOn| && i < |left.rows|
  {
    var keep := RightKept(right, leftOn, rightOn);
    var n := |left.columns|;
    |row| == n + |keep| && row[..n] == left.rows[i] &&
    ((exists k :: 0 <= k < |right.rows| && KeysAgree(left, i, right, k, leftOn, rightOn) && row[n..] == Project(right.rows[k], keep))
     || (how == Left && MatchCount(left, i, right, leftOn, rightOn, 0) == 0 && row[n..] == Nulls(|keep|)))
  }

  // Proofs about the join.

  /** The positional key comparison the merge makes is the cell-wise agreement of the keys. */
  lemma KeysEqualIffAgree(left: Table, i: nat, right: Table, k: nat, leftOn: seq<string>, rightOn: seq<string>)
    requires WellFormed(left) && WellFormed(right) && HasKeys(left, leftOn) && HasKeys(right, rightOn)
    requires |leftOn| == |rightOn| && i < |left.rows| && k < |right.rows|
    ensures Project(left.rows[i], KeyPositions(left, leftOn)) == Project(right.rows[k], KeyPositions(right, rightOn))
      <==> KeysAgree(left, i, right, k, leftOn, rightOn)
  {
    var a := Project(left.rows[i], KeyPositions(left, leftOn));
    var b := Project(right.rows[k], KeyPositions(right, rightOn));
    assert forall n :: 0 <= n < |leftOn| ==> a[n] == Cell(left, i, leftOn[n]) && b[n] == Cell(right, k, rightOn[n]);
    if KeysAgree(left, i, right, k, leftOn, rightOn) {
      assert a == b;
    }
  }

  /** The merge finds as many right rows for a left row as agree with it on the keys. */
  lemma MatchesCount(left: Table, i: nat, right: Table, leftOn: seq<string>, rightOn: seq<string>, from: nat)
    requires WellFormed(left) && WellFormed(right) && HasKeys(left, leftOn) && HasKeys(right, rightOn)
    requires |leftOn| == |rightOn| && i < |left.rows| && from <= |right.rows|
    ensures |MatchesFrom(Project(left.rows[i], KeyPositions(left, leftOn)), right, KeyPositions(right, rightOn), from)|
      == MatchCount(left, i, right, leftOn, rightOn, from)
  {
    MatchesCountFrom(left, i, right, leftOn, rightOn, Project(left.rows[i], KeyPositions(left, leftOn)), KeyPositions(right, rightOn), from);
  }

  /** `key` and `ri` are the key cells of left row `i` and the key positions of the right table. */
  predicate KeyedRow(left: Table, i: nat, right: Table, leftOn: seq<string>, rightOn: seq<string>, key: seq<Value>, ri: seq<nat>) {
    WellFormed(left) && WellFormed(right) && HasKeys(left, leftOn) && HasKeys(right, rightOn) &&
    |leftOn| == |rightOn| && i < |left.rows| &&
    key == Project(left.rows[i], KeyPositions(left, leftOn)) && ri == KeyPositions(right, rightOn)
  }

  lemma {:induction false} MatchesCountFrom(left: Table, i: nat, right: Table, leftOn: seq<string>, rightOn: seq<string>,
                                            key: seq<Value>, ri: seq<nat>, from: nat)
    requires KeyedRow(left, i, right, leftOn, rightOn, key, ri) && from <= |right.rows|
    ensures |MatchesFrom(key, right, ri, from)| == MatchCount(left, i, right, leftOn, rightOn, from)
    decreases |right.rows| - from
  {
    if from < |right.rows| {
      var rest := |MatchesFrom(key, right, ri, from + 1)|;
      MatchesCountFrom(left, i, right, leftOn, rightOn, key, ri, from + 1);
      assert rest == MatchCount(left, i, right, leftOn, rightOn, from + 1);
      CountStep(left, i, right, leftOn, rightOn, key, ri, from);
    } else {
      assert MatchesFrom(key, right, ri, from) == [];
    }
  }

  /** Right row `from` adds one to both counts or to neither. */
  lemma CountStep(left: Table, i: nat, right: Table, leftOn: seq<string>, rightOn: seq<string>,
                  key: seq<Value>, ri: seq<nat>, from: nat)
    requires KeyedRow(left, i, right, leftOn, rightOn, key, ri) && from < |right.rows|
    ensures |MatchesFrom(key, right, ri, from)| - |MatchesFrom(key, right, ri, from + 1)|
      == MatchCount(left, i, right, leftOn, rightOn, from) - MatchCount(left, i, right, leftOn, rightOn, from + 1)
  {
    KeysEqualIffAgree(left, i, right, from, leftOn, rightOn);
  }

  lemma JoinRowOrigin(left: Table, right: Table, leftOn: seq<string>, rightOn: seq<string>, how: How, i: nat)
    requires WellFormed(left) && WellFormed(right) && HasKeys(left, leftOn) && HasKeys(right, rightOn)
    requires |leftOn| == |rightOn| && i < |left.rows|
    ensures var out := JoinRow(left.rows[i], KeyPositions(left, leftOn), right, KeyPositions(right, rightOn), RightKept(right, leftOn, rightOn), how);
      forall m :: 0 <= m < |out| ==> JoinedFrom(left, right, leftOn, rightOn, how, i, out[m])
  {
    var l := left.rows[i];
    var li := KeyPositions(left, leftOn);
    var ri := KeyPositions(right, rightOn);
    var keep := RightKept(right, leftOn, rightOn);
    var n := |left.columns|;
    var out := JoinRow(l, li, right, ri, keep, how);
    var ms := MatchesFrom(Project(l, li), right, ri, 0);
    MatchesFromExact(Project(l, li), right, ri, 0);
    if ms == [] {
      MatchesCount(left, i, right, leftOn, rightOn, 0);
      if how == Left {
        assert (l + Nulls(|keep|))[n..] == Nulls(|keep|);
      }
    } else {
      forall m | 0 <= m < |out| ensures JoinedFrom(left, right, leftOn, rightOn, how, i, out[m]) {
        var k := ms[m];
        KeysEqualIffAgree(left, i, right, k, leftOn, rightOn);
        assert out[m] == l + Project(right.rows[k], keep);
        assert out[m][n..] == Project(right.rows[k], keep);
      }
    }
  }

  /** The left row each output row from left row `from` on comes from, in output order. */
  function OriginsFrom(left: Table, right: Table, leftOn: seq<string>, rightOn: seq<string>, how: How, from: nat): (o: seq<nat>)
    requires WellFormed(left) && WellFormed(right) && HasKeys(left, leftOn) && HasKeys(right, rightOn)
    requires |leftOn| == |rightOn| && from <= |left.rows|
    ensures forall j :: 0 <= j < |o| ==> from <= o[j] < |left.rows|
    decreases |left.rows| - from
  {
    if from == |left.rows| then []
    else
      var c := MatchCount(left, from, right, leftOn, rightOn, 0);
      Replicate(from, if how == Left then Max1(c) else c) + OriginsFrom(left, right, leftOn, rightOn, how, from + 1)
  }

  /** Each output row `out[j]` comes from left row `o[j]`. */
  predicate AllJoinedFrom(left: Table, right: Table, leftOn: seq<string>, rightOn: seq<string>, how: How, o: seq<nat>, out: seq<Row>)
    requires WellFormed(left) && WellFormed(right) && HasKeys(left, leftOn) && HasKeys(right, rightOn)
    requires |leftOn| == |rightOn|
  {
    |o| == |out| && forall j :: 0 <= j < |out| ==> o[j] < |left.rows| && JoinedFrom(left, right, leftOn, rightOn, how, o[j], out[j])
  }

  lemma JoinedConcat(left: Table, right: Table, leftOn: seq<string>, rightOn: seq<string>, how: How,
                     o1: seq<nat>, out1: seq<Row>, o2: seq<nat>, out2: seq<Row>)
    requires WellFormed(left) && WellFormed(right) && HasKeys(left, leftOn) && HasKeys(right, rightOn)
    requires |leftOn| == |rightOn|
    requires AllJoinedFrom(left, right, leftOn, rightOn, how, o1, out1) && AllJoinedFrom(left, right, leftOn, rightOn, how, o2, out2)
    ensures AllJoinedFrom(left, right, leftOn, rightOn, how, o1 + o2, out1 + out2)
  {
    forall j | 0 <= j < |out1 + out2|
      ensures (o1 + o2)[j] < |left.rows| && JoinedFrom(left, right, leftOn, rightOn, how, (o1 + o2)[j], (out1 + out2)[j])
    {
      if j < |out1| {
        assert (o1 + o2)[j] == o1[j] && (out1 + out2)[j] == out1[j];
      } else {
        assert (o1 + o2)[j] == o2[j - |out1|] && (out1 + out2)[j] == out2[j - |out1|];
      }
    }
  }

  lemma {:induction false} JoinFromOrigin(left: Table, right: Table, leftOn: seq<string>, rightOn: seq<string>, how: How, from: nat)
    requires WellFormed(left) && WellFormed(right) && HasKeys(left, leftOn) && HasKeys(right, rightOn)
    requires |leftOn| == |rightOn| && from <= |left.rows|
    ensures var out := JoinFrom(left, KeyPositions(left, leftOn), right, KeyPositions(right, rightOn), RightKept(right, leftOn, rightOn), how, from);
      AllJoinedFrom(left, right, leftOn, rightOn, how, OriginsFrom(left, right, leftOn, rightOn, how, from), out)
    decreases |left.rows| - from
  {
    if from < |left.rows| {
      var li := KeyPositions(left, leftOn);
      var ri := KeyPositions(right, rightOn);
      var keep := RightKept(right, leftOn, rightOn);
      var head := JoinRow(left.rows[from], li, right, ri, keep, how);
      var tail := JoinFrom(left, li, right, ri, keep, how, from + 1);
      var c := MatchCount(left, from, right, leftOn, rightOn, 0);
      var oh := Replicate(from, if how == Left then Max1(c) else c);
      var ot := OriginsFrom(left, right, leftOn, rightOn, how, from + 1);
      MatchesCount(left, from, right, leftOn, rightOn, 0);
      JoinRowOrigin(left, right, leftOn, rightOn, how, from);
      assert AllJoinedFrom(left, right, leftOn, rightOn, how, oh, head);
      JoinFromOrigin(left, right, leftOn, rightOn, how, from + 1);
      JoinedConcat(left, right, leftOn, rightOn, how, oh, head, ot, tail);
    }
  }

  /** The output rows that left row `i` gives include its combination with every right row that agrees with it. */
  lemma JoinRowComplete(left: Table, right: Table, leftOn: seq<string>, rightOn: seq<string>, how: How, i: nat, k: nat)
    requires WellFormed(left) && WellFormed(right) && HasKeys(left, leftOn) && HasKeys(right, rightOn)
    requires |leftOn| == |rightOn| && i < |left.rows| && k < |right.rows| && KeysAgree(left, i, right, k, leftOn, rightOn)
    ensures var keep := RightKept(right, leftOn, rightOn);
      left.rows[i] + Project(right.rows[k], keep) in
        JoinRow(left.rows[i], KeyPositions(left, leftOn), right, KeyPositions(right, rightOn), keep, how)
  {
    var li := KeyPositions(left, leftOn);
    var ri := KeyPositions(right, rightOn);
    var keep := RightKept(right, leftOn, rightOn);
    var head := JoinRow(left.rows[i], li, right, ri, keep, how);
    KeysEqualIffAgree(left, i, right, k, leftOn, rightOn);
    var ms := MatchesFrom(Project(left.rows[i], li), right, ri, 0);
    MatchesFromExact(Project(left.rows[i], li), right, ri, 0);
    assert k in ms;
    var m :| 0 <= m < |ms| && ms[m] == k;
    assert head[m] == left.rows[i] + Project(right.rows[k], keep);
  }

  lemma {:induction false} JoinFromComplete(left: Table, right: Table, leftOn: seq<string>, rightOn: seq<string>, how: How,
                                            from: nat, i: nat, k: nat)
    requires WellFormed(left) && WellFormed(right) && HasKeys(left, leftOn) && HasKeys(right, rightOn)
    requires |leftOn| == |rightOn| && from <= i < |left.rows| && k < |right.rows| && KeysAgree(left, i, right, k, leftOn, rightOn)
    ensures var keep := RightKept(right, leftOn, rightOn);
      left.rows[i] + Project(right.rows[k], keep) in
        JoinFrom(left, KeyPositions(left, leftOn), right, KeyPositions(right, rightOn), keep, how, from)
    decreases |left.rows| - from
  {
    var li := KeyPositions(left, leftOn);
    var ri := KeyPositions(right, rightOn);
    var keep := RightKept(right, leftOn, rightOn);
    var head := JoinRow(left.rows[from], li, right, ri, keep, how);
    var tail := JoinFrom(left, li, right, ri, keep, how, from + 1);
    assert JoinFrom(left, li, right, ri, keep, how, from) == head + tail;
    if i == from {
      JoinRowComplete(left, right, leftOn, rightOn, how, i, k);
    } else {
      JoinFromComplete(left, right, leftOn, rightOn, how, from + 1, i, k);
    }
  }

  /** Taking the first `n` cells of every row distributes over concatenating two row lists. */
  lemma PrefixesConcat(a: seq<Row>, b: seq<Row>, n: nat)
    requires forall j :: 0 <= j < |a| ==> n <= |a[j]|
    requires forall j :: 0 <= j < |b| ==> n <= |b[j]|
    ensures Prefixes(a + b, n) == Prefixes(a, n) + Prefixes(b, n)
  {
    var ab := a + b;
    assert forall j :: 0 <= j < |ab| ==> ab[j] == if j < |a| then a[j] else b[j - |a|];
  }

  lemma {:induction false} JoinFromLeftParts(left: Table, right: Table, leftOn: seq<string>, rightOn: seq<string>, how: How, from: nat)
    requires WellFormed(left) && WellFormed(right) && HasKeys(left, leftOn) && HasKeys(right, rightOn)
    requires |leftOn| == |rightOn| && from <= |left.rows|
    ensures var out := JoinFrom(left, KeyPositions(left, leftOn), right, KeyPositions(right, rightOn), RightKept(right, leftOn, rightOn), how, from);
      Prefixes(out, |left.columns|) == LeftPartsFrom(left, right, leftOn, rightOn, how, from)
    decreases |left.rows| - from
  {
    if from < |left.rows| {
      var n := |left.columns|;
      var l := left.rows[from];
      var li := KeyPositions(left, leftOn);
      var ri := KeyPositions(right, rightOn);
      var keep := RightKept(right, leftOn, rightOn);
      var head := JoinRow(l, li, right, ri, keep, how);
      var tail := JoinFrom(left, li, right, ri, keep, how, from + 1);
      var c := MatchCount(left, from, right, leftOn, rightOn, 0);
      MatchesCount(left, from, right, leftOn, rightOn, 0);
      assert |head| == if how == Left then Max1(c) else c;
      assert Prefixes(head, n) == Replicate(l, |head|);
      PrefixesConcat(head, tail, n);
      JoinFromLeftParts(left, right, leftOn, rightOn, how, from + 1);
    }
  }

  lemma {:induction false} LeftPartsSize(left: Table, right: Table, leftOn: seq<string>, rightOn: seq<string>, how: How, from: nat)
    requires WellFormed(left) && WellFormed(right) && HasKeys(left, leftOn) && HasKeys(right, rightOn)
    requires |leftOn| == |rightOn| && from <= |left.rows|
    ensures |LeftPartsFrom(left, right, leftOn, rightOn, how, from)| == JoinSize(left, right, leftOn, rightOn, how, from)
    ensures how == Left ==> JoinSize(left, right, leftOn, rightOn, how, from) >= |left.rows| - from
    ensures how == Left ==> forall i :: from <= i < |left.rows| ==> left.rows[i] in LeftPartsFrom(left, right, leftOn, rightOn, how, from)
    decreases |left.rows| - from
  {
    if from < |left.rows| {
      LeftPartsSize(left, right, leftOn, rightOn, how, from + 1);
      var c := MatchCount(left, from, right, leftOn, rightOn, 0);
      var head := Replicate(left.rows[from], if how == Left then Max1(c) else c);
      var tail := LeftPartsFrom(left, right, leftOn, rightOn, how, from + 1);
      if how == Left {
        assert (head + tail)[0] == left.rows[from];
        forall i | from + 1 <= i < |left.rows| ensures left.rows[i] in head + tail {
          var j :| 0 <= j < |tail| && tail[j] == left.rows[i];
          assert (head + tail)[|head| + j] == left.rows[i];
        }
      }
    }
  }

  // The merge, stated on tables.

  /** The number of output rows: per left row, its number of agreeing right rows, at least one in a left join. */
  lemma MergeRowCount(left: Table, right: Table, leftOn: seq<string>, rightOn: seq<string>, how: How)
    requires WellFormed(left) && WellFormed(right) && |leftOn| == |rightOn|
    requires HasKeys(left, leftOn) && HasKeys(right, rightOn)
    ensures Merge(left, right, leftOn, rightOn, how).Success?
    ensures |Merge(left, right, leftOn, rightOn, how).value.rows| == JoinSize(left, right, leftOn, rightOn, how, 0)
    ensures how == Left ==> |Merge(left, right, leftOn, rightOn, how).value.rows| >= |left.rows|
  {
    JoinFromLeftParts(left, right, leftOn, rightOn, how, 0);
    LeftPartsSize(left, right, leftOn, rightOn, how, 0);
  }

  /**
   * Read down the output, the left-hand cells are the left rows in their order,
   * each repeated once per agreeing right row (once when none agrees, in a
   * left join; not at all, in an inner join).
   */
  lemma MergeLeftParts(left: Table, right: Table, leftOn: seq<string>, rightOn: seq<string>, how: How)
    requires WellFormed(left) && WellFormed(right) && |leftOn| == |rightOn|
    requires HasKeys(left, leftOn) && HasKeys(right, rightOn)
    ensures Merge(left, right, leftOn, rightOn, how).Success?
    ensures Prefixes(Merge(left, right, leftOn, rightOn, how).value.rows, |left.columns|)
      == LeftPartsFrom(left, right, leftOn, rightOn, how, 0)
  {
    JoinFromLeftParts(left, right, leftOn, rightOn, how, 0);
  }

  /** A left join loses no left row. */
  lemma LeftMergeKeepsLeftRows(left: Table, right: Table, leftOn: seq<string>, rightOn: seq<string>)
    requires WellFormed(left) && WellFormed(right) && |leftOn| == |rightOn|
    requires HasKeys(left, leftOn) && HasKeys(right, rightOn)
    ensures Merge(left, right, leftOn, rightOn, Left).Success?
    ensures var out := Merge(left, right, leftOn, rightOn, Left).value;
      forall i :: 0 <= i < |left.rows| ==> exists j :: 0 <= j < |out.rows| && out.rows[j][..|left.columns|] == left.rows[i]
  {
    var out := Merge(left, right, leftOn, rightOn, Left).value;
    var n := |left.columns|;
    JoinFromLeftParts(left, right, leftOn, rightOn, Left, 0);
    LeftPartsSize(left, right, leftOn, rightOn, Left, 0);
    var parts := Prefixes(out.rows, n);
    forall i | 0 <= i < |left.rows| ensures exists j :: 0 <= j < |out.rows| && out.rows[j][..n] == left.rows[i] {
      var j :| 0 <= j < |parts| && parts[j] == left.rows[i];
      assert out.rows[j][..n] == left.rows[i];
    }
  }

  /**
   * Every output row comes from one left row and, unless it is a left join's
   * row for a left row nothing agrees with, one right row whose keys agree;
   * `OriginsFrom` names that left row for each output row, in output order.
   */
  lemma MergeRowsOrigin(left: Table, right: Table, leftOn: seq<string>, rightOn: seq<string>, how: How)
    requires WellFormed(left) && WellFormed(right) && |leftOn| == |rightOn|
    requires HasKeys(left, leftOn) && HasKeys(right, rightOn)
    ensures Merge(left, right, leftOn, rightOn, how).Success?
    ensures var out := Merge(left, right, leftOn, rightOn, how).value;
      var o := OriginsFrom(left, right, leftOn, rightOn, how, 0);
      |o| == |out.rows| && forall j :: 0 <= j < |out.rows| ==> JoinedFrom(left, right, leftOn, rightOn, how, o[j], out.rows[j])
  {
    JoinFromOrigin(left, right, leftOn, rightOn, how, 0);
  }

  /** Every pair of a left row and a right row whose keys agree is joined into an output row. */
  lemma MergeComplete(left: Table, right: Table, leftOn: seq<string>, rightOn: seq<string>, how: How)
    requires WellFormed(left) && WellFormed(right) && |leftOn| == |rightOn|
    requires HasKeys(left, leftOn) && HasKeys(right, rightOn)
    ensures Merge(left, right, leftOn, rightOn, how).Success?
    ensures var out := Merge(left, right, leftOn, rightOn, how).value;
      forall i, k :: 0 <= i < |left.rows| && 0 <= k < |right.rows| && KeysAgree(left, i, right, k, leftOn, rightOn) ==>
        left.rows[i] + Project(right.rows[k], RightKept(right, leftOn, rightOn)) in out.rows
  {
    forall i, k | 0 <= i < |left.rows| && 0 <= k < |right.rows| && KeysAgree(left, i, right, k, leftOn, rightOn)
      ensures left.rows[i] + Project(right.rows[k], RightKept(right, leftOn, rightOn)) in Merge(left, right, leftOn, rightOn, how).value.rows
    {
      JoinFromComplete(left, right, leftOn, rightOn, how, 0, i, k);
    }
  }

  /** A right-hand label that reaches the output: not a left label and not a shared key. */
  predicate RightOnly(left: Table, right: Table, leftOn: seq<string>, rightOn: seq<string>, d: string)
    requires |leftOn| == |rightOn|
  {
    d in right.columns && d !in left.columns && d !in SharedKeys(leftOn, rightOn)
  }

  /** In every left column, an output row has the cells of the left row it comes from. */
  lemma MergeLeftCells(left: Table, right: Table, leftOn: seq<string>, rightOn: seq<string>, how: How, i: nat, j: nat)
    requires WellFormed(left) && WellFormed(right) && |leftOn| == |rightOn|
    requires HasKeys(left, leftOn) && HasKeys(right, rightOn)
    requires Merge(left, right, leftOn, rightOn, how).Success?
    requires i < |left.rows| && j < |Merge(left, right, leftOn, rightOn, how).value.rows|
    requires JoinedFrom(left, right, leftOn, rightOn, how, i, Merge(left, right, leftOn, rightOn, how).value.rows[j])
    ensures var out := Merge(left, right, leftOn, rightOn, how).value;
      forall c :: c in left.columns ==> c in out.columns && Cell(out, j, c) == Cell(left, i, c)
  {
    var out := Merge(left, right, leftOn, rightOn, how).value;
    assert out.columns[..|left.columns|] == left.columns;
    forall c | c in left.columns ensures c in out.columns && Cell(out, j, c) == Cell(left, i, c) {
      PrefixCell(left, out, i, j, c);
    }
  }

  /** In every right-only column, an output row joined with right row `k` has the cells of that row. */
  lemma MergeRightCells(left: Table, right: Table, leftOn: seq<string>, rightOn: seq<string>, how: How, k: nat, j: nat)
    requires WellFormed(left) && WellFormed(right) && |leftOn| == |rightOn|
    requires Merge(left, right, leftOn, rightOn, how).Success?
    requires k < |right.rows| && j < |Merge(left, right, leftOn, rightOn, how).value.rows|
    requires Merge(left, right, leftOn, rightOn, how).value.rows[j][|left.columns|..]
      == Project(right.rows[k], RightKept(right, leftOn, rightOn))
    ensures var out := Merge(left, right, leftOn, rightOn, how).value;
      forall d :: RightOnly(left, right, leftOn, rightOn, d) ==> d in out.columns && Cell(out, j, d) == Cell(right, k, d)
  {
    var out := Merge(left, right, leftOn, rightOn, how).value;
    forall d | RightOnly(left, right, leftOn, rightOn, d) ensures d in out.columns && Cell(out, j, d) == Cell(right, k, d) {
      SuffixCell(left.columns, right, SharedKeys(leftOn, rightOn), k, out, j, d);
    }
  }

  /** In every right-only column, a left join's row for an unmatched left row holds missing values. */
  lemma MergeUnmatchedCells(left: Table, right: Table, leftOn: seq<string>, rightOn: seq<string>, how: How, j: nat)
    requires WellFormed(left) && WellFormed(right) && |leftOn| == |rightOn|
    requires Merge(left, right, leftOn, rightOn, how).Success?
    requires j < |Merge(left, right, leftOn, rightOn, how).value.rows|
    requires Merge(left, right, leftOn, rightOn, how).value.rows[j][|left.columns|..]
      == Nulls(|RightKept(right, leftOn, rightOn)|)
    ensures var out := Merge(left, right, leftOn, rightOn, how).value;
      forall d :: RightOnly(left, right, leftOn, rightOn, d) ==> d in out.columns && Cell(out, j, d) == Missing
  {
    var out := Merge(left, right, leftOn, rightOn, how).value;
    forall d | RightOnly(left, right, leftOn, rightOn, d) ensures d in out.columns && Cell(out, j, d) == Missing {
      UnmatchedCell(left, right, leftOn, rightOn, how, j, d);
    }
  }

  lemma UnmatchedCell(left: Table, right: Table, leftOn: seq<string>, rightOn: seq<string>, how: How, j: nat, d: string)
    requires WellFormed(left) && WellFormed(right) && |leftOn| == |rightOn|
    requires Merge(left, right, leftOn, rightOn, how).Success?
    requires j < |Merge(left, right, leftOn, rightOn, how).value.rows|
    requires Merge(left, right, leftOn, rightOn, how).value.rows[j][|left.columns|..]
      == Nulls(|RightKept(right, leftOn, rightOn)|)
    requires RightOnly(left, right, leftOn, rightOn, d)
    ensures var out := Merge(left, right, leftOn, rightOn, how).value;
      d in out.columns && Cell(out, j, d) == Missing
  {
    var out := Merge(left, right, leftOn, rightOn, how).value;
    var keep := RightKept(right, leftOn, rightOn);
    var n := |left.columns|;
    KeptIndexOf(right.columns, SharedKeys(leftOn, rightOn), d);
    var q := IndexOf(Project(right.columns, keep), d);
    IndexOfConcat(left.columns, Project(right.columns, keep), d);
    assert out.rows[j][n + q] == out.rows[j][n..][q];
  }

  /** A label is an output label exactly when it is a left label or a right label other than a shared key. */
  lemma MergeLabels(left: Table, right: Table, leftOn: seq<string>, rightOn: seq<string>, how: How)
    requires WellFormed(left) && WellFormed(right) && |leftOn| == |rightOn|
    requires Merge(left, right, leftOn, rightOn, how).Success?
    ensures var out := Merge(left, right, leftOn, rightOn, how).value;
      forall c :: c in out.columns <==> c in left.columns || (c in right.columns && c !in SharedKeys(leftOn, rightOn))
  {
    var out := Merge(left, right, leftOn, rightOn, how).value;
    var shared := SharedKeys(leftOn, rightOn);
    var kept := Project(right.columns, RightKept(right, leftOn, rightOn));
    forall c ensures c in out.columns <==> c in left.columns || (c in right.columns && c !in shared) {
      if c in right.columns && c !in shared {
        KeptIndexOf(right.columns, shared, c);
      }
      if c in kept {
        var q :| 0 <= q < |kept| && kept[q] == c;
      }
    }
  }

  /** Joining on the same labels on both sides shares every key. */
  lemma {:induction false} SharedKeysSame(keys: seq<string>)
    ensures SharedKeys(keys, keys) == keys
  {
    if keys != [] {
      SharedKeysSame(keys[1..]);
    }
  }

  /** When every left row from `from` on agrees with exactly one right row, an inner join has one row for each. */
  lemma {:induction false} JoinSizeUnique(left: Table, right: Table, leftOn: seq<string>, rightOn: seq<string>, from: nat)
    requires WellFormed(left) && WellFormed(right) && HasKeys(left, leftOn) && HasKeys(right, rightOn)
    requires |leftOn| == |rightOn| && from <= |left.rows|
    requires forall i :: from <= i < |left.rows| ==> MatchCount(left, i, right, leftOn, rightOn, 0) == 1
    ensures JoinSize(left, right, leftOn, rightOn, Inner, from) == |left.rows| - from
    decreases |left.rows| - from
  {
    if from < |left.rows| {
      JoinSizeUnique(left, right, leftOn, rightOn, from + 1);
    }
  }
}
