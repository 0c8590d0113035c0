/** `PatientsCsvValidator`: `RuleForEach` lifts the row validator to a whole
    batch. Every row is validated, also after an earlier row failed, and each
    failure is reported with the position of its row. The row validator,
    `PatientCsvValidator`, is not part of this model: it is a parameter. */
module PatientsCsvValidator {
  import opened Base

  datatype RowFailure<F> = RowFailure(row: nat, failure: F)

  function Tag<F>(row: nat, fs: seq<F>): (r: seq<RowFailure<F>>)
    ensures |r| == |fs|
    ensures forall k :: 0 <= k < |r| ==> r[k] == RowFailure(row, fs[k])
  {
    if fs == [] then [] else [RowFailure(row, fs[0])] + Tag(row, fs[1..])
  }

  /** The failures of a batch: each row's failures, tagged, in row order. */
  function Validate<R, F>(rows: seq<R>, validateRow: R -> seq<F>): (fs: seq<RowFailure<F>>)
    ensures forall k :: 0 <= k < |fs| ==>
              fs[k].row < |rows| && fs[k].failure in validateRow(rows[fs[k].row])
    ensures forall k1, k2 :: 0 <= k1 < k2 < |fs| ==> fs[k1].row <= fs[k2].row
  {
    if rows == [] then []
    else
      var n := |rows| - 1;
      var front := rows[..n];
      assert forall i :: 0 <= i < n ==> front[i] == rows[i];
      var before := Validate(front, validateRow);
      var tagged := Tag(n, validateRow(rows[n]));
      var all := before + tagged;
      assert forall k :: 0 <= k < |before| ==> all[k] == before[k] && all[k].row < n;
      assert forall k :: |before| <= k < |all| ==> all[k] == tagged[k - |before|] && all[k].row == n;
      all
  }

  predicate IsValid<R, F>(rows: seq<R>, validateRow: R -> seq<F>) {
    Validate(rows, validateRow) == []
  }

  /** The failures of `fs` that belong to row `i`, without their tag. */
  function FailuresOfRow<F>(fs: seq<RowFailure<F>>, i: nat): (r: seq<F>)
    ensures |r| <= |fs|
  {
    if fs == [] then []
    else (if fs[0].row == i then [fs[0].failure] else []) + FailuresOfRow(fs[1..], i)
  }

  lemma {:induction false} FailuresOfRowAppend<F>(a: seq<RowFailure<F>>, b: seq<RowFailure<F>>, i: nat)
    ensures FailuresOfRow(a + b, i) == FailuresOfRow(a, i) + FailuresOfRow(b, i)
  {
    if a == [] {
      assert a + b == b;
    } else {
      var ab := a + b;
      assert ab[0] == a[0];
      assert ab[1..] == a[1..] + b;
      calc {
        FailuresOfRow(ab, i);
        (if a[0].row == i then [a[0].failure] else []) + FailuresOfRow(a[1..] + b, i);
        { FailuresOfRowAppend(a[1..], b, i); }
        (if a[0].row == i then [a[0].failure] else []) + (FailuresOfRow(a[1..], i) + FailuresOfRow(b, i));
      }
    }
  }

  lemma {:induction false} FailuresOfRowTag<F>(row: nat, fs: seq<F>, i: nat)
    ensures FailuresOfRow(Tag(row, fs), i) == if row == i then fs else []
  {
    if fs != [] {
      FailuresOfRowTag(row, fs[1..], i);
      assert Tag(row, fs)[1..] == Tag(row, fs[1..]);
    }
  }

  /** The batch failures of row `i` are exactly what the row validator reports
      for row `i`, in its order: the batch result is the concatenation of the
      rows' failures, with nothing dropped, added or reordered. */
  lemma {:induction false} FailuresOfEveryRow<R, F>(rows: seq<R>, validateRow: R -> seq<F>, i: nat)
    requires i < |rows|
    ensures FailuresOfRow(Validate(rows, validateRow), i) == validateRow(rows[i])
  {
    FailuresOfRowBeyond(rows, validateRow, i);
  }

  lemma {:induction false} FailuresOfRowBeyond<R, F>(rows: seq<R>, validateRow: R -> seq<F>, i: nat)
    ensures FailuresOfRow(Validate(rows, validateRow), i) == if i < |rows| then validateRow(rows[i]) else []
  {
    if rows != [] {
      var n := |rows| - 1;
      var front := rows[..n];
      var before := Validate(front, validateRow);
      var tagged := Tag(n, validateRow(rows[n]));
      assert Validate(rows, validateRow) == before + tagged;
      FailuresOfRowBeyond(front, validateRow, i);
      FailuresOfRowAppend(before, tagged, i);
      FailuresOfRowTag(n, validateRow(rows[n]), i);
      if i < n {
        assert front[i] == rows[i];
      }
    }
  }

  /** A batch is valid exactly when every row is: no row's failures are
      dropped, and no failure is reported for a row that has none. */
  lemma ValidIffEveryRowValid<R, F>(rows: seq<R>, validateRow: R -> seq<F>)
    ensures IsValid(rows, validateRow) <==> forall i :: 0 <= i < |rows| ==> validateRow(rows[i]) == []
  {
    var fs := Validate(rows, validateRow);
    if fs == [] {
      forall i | 0 <= i < |rows| ensures validateRow(rows[i]) == [] {
        FailuresOfEveryRow(rows, validateRow, i);
      }
    } else {
      assert fs[0].failure in validateRow(rows[fs[0].row]);
    }
  }

  /** An empty batch is valid. */
  lemma EmptyBatchValid<R, F>(validateRow: R -> seq<F>)
    ensures IsValid([], validateRow)
  {
  }
}
