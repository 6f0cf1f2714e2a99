/**
 * The column-kind dispatch of `filter_dataframe`: the first matching test among
 * categorical, numeric, datetime and text decides which widget and which
 * predicate a filter column gets.
 */
module ColumnKinds {
  import opened Cells
  import opened Frames

  datatype Kind = Categorical | Numeric | Temporal | Textual

  /** Below this many distinct values a column is offered as a multiselect. */
  const CategoricalThreshold: nat := 10

  /**
   * First match wins: a categorical dtype or fewer than ten distinct values makes
   * the column categorical whatever its dtype; otherwise numeric, then datetime,
   * then text.
   */
  function Classify(dtype: Dtype, nunique: nat): (k: Kind)
    ensures k == Categorical <==> dtype == CategoricalDtype || nunique < CategoricalThreshold
    ensures k == Numeric <==> dtype == NumericDtype && nunique >= CategoricalThreshold
    ensures k == Temporal <==> dtype == DatetimeDtype && nunique >= CategoricalThreshold
    ensures k == Textual <==> dtype == ObjectDtype && nunique >= CategoricalThreshold
  {
    if dtype == CategoricalDtype || nunique < CategoricalThreshold then Categorical
    else match dtype
      case NumericDtype => Numeric
      case DatetimeDtype => Temporal
      case ObjectDtype => Textual
  }

  /** The kind the loop assigns to column `col` of the rows it currently holds. */
  function KindOf(dtypes: seq<Dtype>, rows: seq<Row>, col: nat): Kind
    requires col < |dtypes| && HasColumn(rows, col)
  {
    Classify(dtypes[col], NUnique(rows, col))
  }

  /**
   * The kind is decided on the rows left by the earlier filters. Dropping rows can
   * only move a column to categorical: a column whose kind changes becomes
   * categorical, and a categorical column stays categorical.
   */
  lemma NarrowingOnlyMakesCategorical(dtypes: seq<Dtype>, xs: seq<Row>, ys: seq<Row>, col: nat)
    requires col < |dtypes| && HasColumn(ys, col)
    requires forall r :: r in xs ==> r in ys
    ensures HasColumn(xs, col)
    ensures KindOf(dtypes, xs, col) != KindOf(dtypes, ys, col) ==> KindOf(dtypes, xs, col) == Categorical
    ensures KindOf(dtypes, ys, col) == Categorical ==> KindOf(dtypes, xs, col) == Categorical
  {
    NUniqueShrinks(xs, ys, col);
  }
}
