/**
 * The flow of `main` once the table is loaded: `filter_dataframe` on the loaded
 * frame, then `paginate_dataframe` on its result. A table read with `read_sql`
 * carries a fresh 0..n-1 index.
 */
module App {
  import opened Wrappers
  import opened Frames
  import opened Seqs
  import opened FilterPipeline
  import opened SortStage
  import opened Pagination

  /** The rows `filter_dataframe` returns for the given widget values. */
  function Filtered(f: Frame, parse: string -> Option<int>, chosen: seq<nat>, answers: seq<Answer>): seq<Row>
    requires WellFormed(f.dtypes, f.rows) && Choices(|f.dtypes|, chosen, answers)
  {
    ConvertedShape(f, parse);
    var g := Converted(f, parse);
    Run(g.dtypes, g.rows, chosen, answers)
  }

  /**
   * The filtered rows of a freshly loaded table are a selection of it in order, so
   * their labels increase; every row has every column.
   */
  lemma FreshTableFiltersIncreasing(f: Frame, parse: string -> Option<int>, chosen: seq<nat>, answers: seq<Answer>)
    requires WellFormed(f.dtypes, f.rows) && Choices(|f.dtypes|, chosen, answers)
    requires RangeIndexed(f.rows)
    ensures Increasing(Filtered(f, parse, chosen, answers))
    ensures forall col: nat :: col < |f.dtypes| ==> HasColumn(Filtered(f, parse, chosen, answers), col)
  {
    ConvertedShape(f, parse);
    var g := Converted(f, parse);
    assert Increasing(g.rows);
    RunKeepsOrder(g.dtypes, g.rows, chosen, answers);
    var out := Filtered(f, parse, chosen, answers);
    SubMembers(out, g.rows);
  }

  /**
   * Leaving every filter widget at its default and not sorting shows all of the
   * table: the pages concatenate to the loaded rows, in order.
   */
  lemma UntouchedUnsortedShowsAll(f: Frame, parse: string -> Option<int>, chosen: seq<nat>, answers: seq<Answer>,
                                  batch: nat, current: nat)
    requires WellFormed(f.dtypes, f.rows) && Choices(|f.dtypes|, chosen, answers)
    requires RangeIndexed(f.rows)
    requires forall i :: 0 <= i < |answers| ==> answers[i] == Untouched
    requires InstantsAtMidnight(Converted(f, parse).rows)
    requires batch > 0 && 1 <= current <= TotalPages(|f.rows|, batch)
    ensures Filtered(f, parse, chosen, answers) == Converted(f, parse).rows
    ensures Increasing(Converted(f, parse).rows)
    ensures Flatten(PaginateDataframe(Converted(f, parse).rows, None, batch, current).pages) == Converted(f, parse).rows
  {
    ConvertedShape(f, parse);
    var g := Converted(f, parse);
    UntouchedWidgetsKeepAll(g.dtypes, g.rows, chosen, answers);
    assert RangeIndexed(g.rows);
    SplitFrameOnRangeIndex(g.rows, batch);
    ChunksFlatten(g.rows, batch);
  }

  /**
   * `main` after `load_data_from_table`: filter the loaded frame, then paginate
   * the result with the sort, page size and page number chosen in the widgets.
   */
  method Browse(f: Frame, parse: string -> Option<int>, chosen: seq<nat>, answers: seq<Answer>,
                choice: Option<SortChoice>, batch: nat, current: nat) returns (v: PageView)
    requires WellFormed(f.dtypes, f.rows) && Choices(|f.dtypes|, chosen, answers)
    requires RangeIndexed(f.rows)
    requires choice.Some? ==> choice.value.col < |f.dtypes|
    requires batch > 0 && 1 <= current <= TotalPages(|Filtered(f, parse, chosen, answers)|, batch)
    ensures Increasing(Filtered(f, parse, chosen, answers))
    ensures choice.Some? ==> HasColumn(Filtered(f, parse, chosen, answers), choice.value.col)
    ensures v == PaginateDataframe(Filtered(f, parse, chosen, answers), choice, batch, current)
  {
    var g := FilterDataframe(f, parse, chosen, answers);
    FreshTableFiltersIncreasing(f, parse, chosen, answers);
    assert g.rows == Filtered(f, parse, chosen, answers);
    var dataset := SortStep(g.rows, choice);
    SortStepIncreasing(g.rows, choice);
    var pages := SplitFrame(dataset, batch);
    v := PageView(pages, SelectPage(pages, current));
  }
}
