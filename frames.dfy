/**
 * The in-memory table: rows that keep their pandas index label, a dtype per
 * column, and the per-column statistics the filter widgets read
 * (`unique`, `nunique`, `min`, `max`).
 */
module Frames {
  import opened Cells
  import opened Seqs

  /** One row: its index label and one cell per column, in column order. */
  datatype Row = Row(index: int, cells: seq<Cell>)

  datatype Frame = Frame(dtypes: seq<Dtype>, rows: seq<Row>)

  predicate RowFits(dtypes: seq<Dtype>, r: Row)
  {
    |r.cells| == |dtypes| && forall c :: 0 <= c < |dtypes| ==> Fits(dtypes[c], r.cells[c])
  }

  /** Every row has one cell per column and each cell suits its column's dtype. */
  predicate WellFormed(dtypes: seq<Dtype>, rows: seq<Row>)
  {
    forall r :: r in rows ==> RowFits(dtypes, r)
  }

  /** Well-formedness read row by row, by position. */
  lemma RowsFit(dtypes: seq<Dtype>, rows: seq<Row>)
    requires WellFormed(dtypes, rows)
    ensures forall i :: 0 <= i < |rows| ==> RowFits(dtypes, rows[i])
  {
    forall i | 0 <= i < |rows| ensures RowFits(dtypes, rows[i]) {
      assert rows[i] in rows;
    }
  }

  predicate HasColumn(rows: seq<Row>, col: nat)
  {
    forall r :: r in rows ==> col < |r.cells|
  }

  /** `df[col].unique()`, as a set. */
  function Unique(rows: seq<Row>, col: nat): set<Cell>
    requires HasColumn(rows, col)
  {
    set r | r in rows :: r.cells[col]
  }

  /** `df[col].nunique()`: at most one distinct value per row, and at least one when there are rows. */
  function NUnique(rows: seq<Row>, col: nat): (n: nat)
    requires HasColumn(rows, col)
    ensures n <= |rows|
    ensures n == 0 <==> rows == []
  {
    UniqueCard(rows, col);
    |Unique(rows, col)|
  }

  lemma {:induction false} UniqueCard(rows: seq<Row>, col: nat)
    requires HasColumn(rows, col)
    ensures |Unique(rows, col)| <= |rows|
    ensures |Unique(rows, col)| == 0 <==> rows == []
    decreases |rows|
  {
    if rows != [] {
      var tail := rows[1..];
      UniqueCard(tail, col);
      assert rows[0].cells[col] in Unique(rows, col);
      assert Unique(rows, col) == Unique(tail, col) + {rows[0].cells[col]} by {
        assert forall r :: r in rows <==> r == rows[0] || r in tail;
      }
    }
  }

  /** Labels strictly increase down the frame, as they do for a RangeIndex and any selection from one. */
  predicate Increasing(rows: seq<Row>)
  {
    forall i, j :: 0 <= i < j < |rows| ==> rows[i].index < rows[j].index
  }

  /** The index labels are the positions 0..n-1 (a fresh RangeIndex). */
  predicate RangeIndexed(rows: seq<Row>)
  {
    forall i :: 0 <= i < |rows| ==> rows[i].index == i
  }

  /** Dropping rows can only lower the number of distinct values of a column. */
  lemma NUniqueShrinks(xs: seq<Row>, ys: seq<Row>, col: nat)
    requires forall r :: r in xs ==> r in ys
    requires HasColumn(ys, col)
    ensures HasColumn(xs, col) && Unique(xs, col) <= Unique(ys, col)
    ensures NUnique(xs, col) <= NUnique(ys, col)
  {
    SubsetCard(Unique(xs, col), Unique(ys, col));
  }

  lemma {:induction false} SubsetCard<T>(a: set<T>, b: set<T>)
    requires a <= b
    ensures |a| <= |b|
    decreases |b|
  {
    if a != {} {
      var x :| x in a;
      SubsetCard(a - {x}, b - {x});
    }
  }

  /** An ordered selection of an increasingly labelled frame is increasingly labelled. */
  lemma {:induction false} SubKeepsIncreasing(xs: seq<Row>, ys: seq<Row>)
    requires Sub(xs, ys) && Increasing(ys)
    ensures Increasing(xs)
    decreases |ys|
  {
    if xs != [] {
      if xs[0] == ys[0] && Sub(xs[1..], ys[1..]) {
        SubKeepsIncreasing(xs[1..], ys[1..]);
        SubMembers(xs[1..], ys[1..]);
        forall j | 0 < j < |xs| ensures xs[0].index < xs[j].index {
          assert xs[j] in xs[1..];
          var m :| 0 <= m < |ys[1..]| && ys[1..][m] == xs[j];
          assert ys[m + 1] == xs[j];
        }
      } else {
        SubKeepsIncreasing(xs, ys[1..]);
      }
    }
  }

  /** Every cell of the column is a number or an instant. */
  predicate ScalarColumn(rows: seq<Row>, col: nat)
  {
    forall r :: r in rows ==> col < |r.cells| && IsScalar(r.cells[col])
  }

  /** `df[col].min()` of a non-empty numeric or temporal column. */
  function MinScalar(rows: seq<Row>, col: nat): (m: int)
    requires |rows| > 0 && ScalarColumn(rows, col)
    ensures forall r :: r in rows ==> m <= Scalar(r.cells[col])
    ensures exists r :: r in rows && m == Scalar(r.cells[col])
    decreases |rows|
  {
    var here := Scalar(rows[0].cells[col]);
    if |rows| == 1 then here
    else
      var rest := MinScalar(rows[1..], col);
      assert forall r :: r in rows ==> r == rows[0] || r in rows[1..];
      if here <= rest then here else rest
  }

  /** `df[col].max()` of a non-empty numeric or temporal column. */
  function MaxScalar(rows: seq<Row>, col: nat): (m: int)
    requires |rows| > 0 && ScalarColumn(rows, col)
    ensures forall r :: r in rows ==> Scalar(r.cells[col]) <= m
    ensures exists r :: r in rows && m == Scalar(r.cells[col])
    decreases |rows|
  {
    var here := Scalar(rows[0].cells[col]);
    if |rows| == 1 then here
    else
      var rest := MaxScalar(rows[1..], col);
      assert forall r :: r in rows ==> r == rows[0] || r in rows[1..];
      if here >= rest then here else rest
  }
}
