/**
 * `filter_dataframe`: the timestamp-conversion pass over every column, then the
 * loop over the columns the user chose to filter on, each of which is
 * classified on the rows still left, gets a widget, and narrows the rows by the
 * predicate that widget's answer gives.
 */
module FilterPipeline {
  import opened Wrappers
  import opened Cells
  import opened Frames
  import opened ColumnKinds
  import opened Filters
  import opened Seqs

  /**
   * What the user's widgets hold for one filter column. `None` means the widget
   * still shows its default: every distinct value, the slider at (min, max), the
   * date input at the days of (min, max). The date input holds calendar days
   * (days since the epoch), and can hold fewer than two while the user is
   * picking a range.
   */
  datatype Answer = Answer(
    selection: Option<set<Cell>>,
    bounds: Option<(int, int)>,
    dates: Option<seq<int>>,
    text: string)

  /** Every widget left at its default, and an empty text box. */
  const Untouched: Answer := Answer(None, None, None, "")

  /** The chosen columns exist, and there is one answer per chosen column. */
  predicate Choices(width: nat, cols: seq<nat>, answers: seq<Answer>)
  {
    |cols| == |answers| && forall i :: 0 <= i < |cols| ==> cols[i] < width
  }

  lemma ColumnOf(dtypes: seq<Dtype>, rows: seq<Row>, col: nat)
    requires col < |dtypes| && WellFormed(dtypes, rows)
    ensures HasColumn(rows, col)
  {
    forall r | r in rows ensures col < |r.cells| {
      assert RowFits(dtypes, r);
    }
  }

  /**
   * A column the dispatch sends to the slider or the date input has rows, holds
   * numbers or instants only, and has distinct minimum and maximum.
   */
  lemma RangeColumn(dtypes: seq<Dtype>, rows: seq<Row>, col: nat)
    requires col < |dtypes| && WellFormed(dtypes, rows)
    requires HasColumn(rows, col)
    requires KindOf(dtypes, rows, col) == Numeric || KindOf(dtypes, rows, col) == Temporal
    ensures |rows| > 0 && ScalarColumn(rows, col)
    ensures MinScalar(rows, col) < MaxScalar(rows, col)
  {
    forall r | r in rows ensures col < |r.cells| && IsScalar(r.cells[col]) {
      assert RowFits(dtypes, r);
      assert Fits(dtypes[col], r.cells[col]);
    }
    var lo, hi := MinScalar(rows, col), MaxScalar(rows, col);
    if lo >= hi {
      var only := if dtypes[col] == NumericDtype then Num(lo) else Instant(lo);
      forall x | x in Unique(rows, col) ensures x in {only} {
        var r :| r in rows && r.cells[col] == x;
        assert RowFits(dtypes, r);
        assert Fits(dtypes[col], r.cells[col]);
      }
      SubsetCard(Unique(rows, col), {only});
      assert false;
    }
  }

  /** The date input's default: the calendar days of the column's minimum and maximum. */
  function DefaultDays(rows: seq<Row>, col: nat): seq<int>
    requires |rows| > 0 && ScalarColumn(rows, col)
  {
    [DayOf(MinScalar(rows, col)), DayOf(MaxScalar(rows, col))]
  }

  /** Every instant in the rows is a midnight, as in a column of plain dates. */
  predicate InstantsAtMidnight(rows: seq<Row>)
  {
    forall r, c :: r in rows && 0 <= c < |r.cells| && r.cells[c].Instant? ==> r.cells[c].ticks % Day == 0
  }

  /**
   * The predicate one pass of the loop applies to column `col`, or `None` when the
   * pass leaves the rows alone (a date input without exactly two dates, an empty
   * text box).
   */
  function Resolve(dtypes: seq<Dtype>, rows: seq<Row>, col: nat, ans: Answer): (p: Option<Pred>)
    requires col < |dtypes| && WellFormed(dtypes, rows)
    ensures p.Some? ==> p.value.col == col
  {
    ColumnOf(dtypes, rows, col);
    match KindOf(dtypes, rows, col)
    case Categorical =>
      Some(Member(col, ans.selection.GetOr(Unique(rows, col))))
    case Numeric =>
      RangeColumn(dtypes, rows, col);
      var bounds := ans.bounds.GetOr((MinScalar(rows, col), MaxScalar(rows, col)));
      Some(Range(col, bounds.0, bounds.1))
    case Temporal =>
      RangeColumn(dtypes, rows, col);
      var days := ans.dates.GetOr(DefaultDays(rows, col));
      if |days| == 2 then Some(Range(col, Midnight(days[0]), Midnight(days[1]))) else None
    case Textual =>
      if ans.text != "" then Some(Substring(col, ans.text)) else None
  }

  /** One pass of the loop: the rows after column `col` has been filtered. */
  function Step(dtypes: seq<Dtype>, rows: seq<Row>, col: nat, ans: Answer): (out: seq<Row>)
    requires col < |dtypes| && WellFormed(dtypes, rows)
    ensures forall r :: r in out ==> r in rows
    ensures WellFormed(dtypes, out)
  {
    match Resolve(dtypes, rows, col, ans)
    case None => rows
    case Some(p) => Where(rows, [p])
  }

  /** The whole loop: column after column, each resolved against the rows left so far. */
  function Run(dtypes: seq<Dtype>, rows: seq<Row>, cols: seq<nat>, answers: seq<Answer>): (out: seq<Row>)
    requires Choices(|dtypes|, cols, answers) && WellFormed(dtypes, rows)
    ensures forall r :: r in out ==> r in rows
    ensures WellFormed(dtypes, out)
    decreases |cols|
  {
    if cols == [] then rows
    else Run(dtypes, Step(dtypes, rows, cols[0], answers[0]), cols[1..], answers[1..])
  }

  /** The predicates the loop ends up applying, in the order it applies them. */
  function Resolved(dtypes: seq<Dtype>, rows: seq<Row>, cols: seq<nat>, answers: seq<Answer>): seq<Pred>
    requires Choices(|dtypes|, cols, answers) && WellFormed(dtypes, rows)
    decreases |cols|
  {
    if cols == [] then []
    else
      var p := Resolve(dtypes, rows, cols[0], answers[0]);
      (if p.Some? then [p.value] else [])
      + Resolved(dtypes, Step(dtypes, rows, cols[0], answers[0]), cols[1..], answers[1..])
  }

  /** A categorical column keeps exactly the rows whose value was selected; by default, all. */
  lemma CategoricalStep(dtypes: seq<Dtype>, rows: seq<Row>, col: nat, ans: Answer)
    requires col < |dtypes| && WellFormed(dtypes, rows) && HasColumn(rows, col)
    requires KindOf(dtypes, rows, col) == Categorical
    ensures forall r :: r in Step(dtypes, rows, col, ans) <==>
      r in rows && r.cells[col] in ans.selection.GetOr(Unique(rows, col))
    ensures ans.selection.None? ==> Step(dtypes, rows, col, ans) == rows
  {
    var p := Member(col, ans.selection.GetOr(Unique(rows, col)));
    forall r ensures HoldsAll([p], r) <==> Holds(p, r) {
      HoldsAllCons(p, [], r);
      assert [p] + [] == [p];
    }
    if ans.selection.None? {
      DefaultSelectionKeepsAll(rows, col);
    }
  }

  /** A one-predicate mask keeps exactly the rows satisfying that predicate. */
  lemma WhereOne(rows: seq<Row>, p: Pred)
    ensures forall r :: r in Where(rows, [p]) <==> r in rows && Holds(p, r)
  {
    forall r ensures HoldsAll([p], r) <==> Holds(p, r) {
      HoldsAllCons(p, [], r);
      assert [p] + [] == [p];
    }
  }

  /** The cells of a column hold the kind of value its dtype says. */
  lemma CellsOfColumn(dtypes: seq<Dtype>, rows: seq<Row>, col: nat)
    requires col < |dtypes| && WellFormed(dtypes, rows)
    ensures forall r :: r in rows ==> col < |r.cells| && Fits(dtypes[col], r.cells[col])
  {
    forall r | r in rows ensures col < |r.cells| && Fits(dtypes[col], r.cells[col]) {
      assert RowFits(dtypes, r);
    }
  }

  /** On a numeric column, the step is the inclusive range mask the slider's value resolves to. */
  lemma NumericStepIsWhere(dtypes: seq<Dtype>, rows: seq<Row>, col: nat, ans: Answer)
    requires col < |dtypes| && WellFormed(dtypes, rows) && HasColumn(rows, col)
    requires KindOf(dtypes, rows, col) == Numeric
    ensures |rows| > 0 && ScalarColumn(rows, col)
    ensures var bounds := ans.bounds.GetOr((MinScalar(rows, col), MaxScalar(rows, col)));
      Step(dtypes, rows, col, ans) == Where(rows, [Range(col, bounds.0, bounds.1)])
  {
    RangeColumn(dtypes, rows, col);
  }

  /** On a datetime column, the step is the inclusive mask between the midnights of the two days, if two are given. */
  lemma TemporalStepIsWhere(dtypes: seq<Dtype>, rows: seq<Row>, col: nat, ans: Answer)
    requires col < |dtypes| && WellFormed(dtypes, rows) && HasColumn(rows, col)
    requires KindOf(dtypes, rows, col) == Temporal
    ensures |rows| > 0 && ScalarColumn(rows, col)
    ensures var days := ans.dates.GetOr(DefaultDays(rows, col));
      Step(dtypes, rows, col, ans) ==
        if |days| == 2 then Where(rows, [Range(col, Midnight(days[0]), Midnight(days[1]))]) else rows
  {
    RangeColumn(dtypes, rows, col);
  }

  /**
   * A numeric column keeps exactly the rows with lo <= value <= hi, nothing when
   * lo > hi, and every row while the slider is at its default.
   */
  lemma NumericStep(dtypes: seq<Dtype>, rows: seq<Row>, col: nat, ans: Answer)
    requires col < |dtypes| && WellFormed(dtypes, rows) && HasColumn(rows, col)
    requires KindOf(dtypes, rows, col) == Numeric
    ensures |rows| > 0 && ScalarColumn(rows, col)
    ensures var bounds := ans.bounds.GetOr((MinScalar(rows, col), MaxScalar(rows, col)));
      (forall r :: r in Step(dtypes, rows, col, ans) <==>
        r in rows && bounds.0 <= r.cells[col].n <= bounds.1)
      && (bounds.0 > bounds.1 ==> Step(dtypes, rows, col, ans) == [])
    ensures ans.bounds.None? ==> Step(dtypes, rows, col, ans) == rows
  {
    NumericStepIsWhere(dtypes, rows, col, ans);
    var bounds := ans.bounds.GetOr((MinScalar(rows, col), MaxScalar(rows, col)));
    var lo, hi := bounds.0, bounds.1;
    var out := Step(dtypes, rows, col, ans);
    NumericRange(dtypes, rows, col, lo, hi);
    assert out == Where(rows, [Range(col, lo, hi)]);
    if ans.bounds.None? {
      DefaultRangeKeepsAll(rows, col);
    }
  }

  /** The range mask on a numeric column, read on the numbers themselves. */
  lemma NumericRange(dtypes: seq<Dtype>, rows: seq<Row>, col: nat, lo: int, hi: int)
    requires col < |dtypes| && WellFormed(dtypes, rows) && dtypes[col] == NumericDtype
    ensures forall r :: r in Where(rows, [Range(col, lo, hi)]) <==>
      r in rows && r.cells[col].Num? && lo <= r.cells[col].n <= hi
    ensures lo > hi ==> Where(rows, [Range(col, lo, hi)]) == []
  {
    var p := Range(col, lo, hi);
    WhereOne(rows, p);
    CellsOfColumn(dtypes, rows, col);
    if lo > hi {
      InvertedRangeKeepsNothing(rows, col, lo, hi);
    }
  }

  /**
   * A datetime column changes nothing unless the date input holds exactly two
   * days, and then keeps the rows from midnight of the first day to midnight of
   * the second, inclusive.
   */
  lemma TemporalStep(dtypes: seq<Dtype>, rows: seq<Row>, col: nat, ans: Answer)
    requires col < |dtypes| && WellFormed(dtypes, rows) && HasColumn(rows, col)
    requires KindOf(dtypes, rows, col) == Temporal
    ensures |rows| > 0 && ScalarColumn(rows, col)
    ensures var days := ans.dates.GetOr(DefaultDays(rows, col));
      (|days| != 2 ==> Step(dtypes, rows, col, ans) == rows)
      && (|days| == 2 ==> forall r :: r in Step(dtypes, rows, col, ans) <==>
            r in rows && Midnight(days[0]) <= r.cells[col].ticks <= Midnight(days[1]))
  {
    TemporalStepIsWhere(dtypes, rows, col, ans);
    var days := ans.dates.GetOr(DefaultDays(rows, col));
    if |days| == 2 {
      WhereOne(rows, Range(col, Midnight(days[0]), Midnight(days[1])));
      CellsOfColumn(dtypes, rows, col);
    }
  }

  /** The cells of a datetime column are instants, and their ticks are their scalar values. */
  lemma InstantColumn(dtypes: seq<Dtype>, rows: seq<Row>, col: nat)
    requires col < |dtypes| && WellFormed(dtypes, rows) && HasColumn(rows, col)
    requires KindOf(dtypes, rows, col) == Temporal
    ensures forall r :: r in rows ==> r.cells[col].Instant? && Scalar(r.cells[col]) == r.cells[col].ticks
  {
    CellsOfColumn(dtypes, rows, col);
  }

  /**
   * The untouched date input keeps exactly the rows up to midnight of the last
   * day: the dates it shows are whole days, turned back into their midnights.
   */
  lemma UntouchedDateInput(dtypes: seq<Dtype>, rows: seq<Row>, col: nat, ans: Answer)
    requires col < |dtypes| && WellFormed(dtypes, rows) && HasColumn(rows, col)
    requires KindOf(dtypes, rows, col) == Temporal && ans.dates.None?
    ensures |rows| > 0 && ScalarColumn(rows, col)
    ensures forall r :: r in Step(dtypes, rows, col, ans) <==>
      r in rows && r.cells[col].ticks <= Midnight(DayOf(MaxScalar(rows, col)))
  {
    TemporalStep(dtypes, rows, col, ans);
    InstantColumn(dtypes, rows, col);
    var lo := MinScalar(rows, col);
    DayBounds(lo);
    assert ans.dates.GetOr(DefaultDays(rows, col)) == [DayOf(lo), DayOf(MaxScalar(rows, col))];
  }

  /** So the untouched date input keeps every row exactly when the column's maximum is a midnight. */
  lemma UntouchedDateInputKeepsAll(dtypes: seq<Dtype>, rows: seq<Row>, col: nat, ans: Answer)
    requires col < |dtypes| && WellFormed(dtypes, rows) && HasColumn(rows, col)
    requires KindOf(dtypes, rows, col) == Temporal && ans.dates.None?
    ensures |rows| > 0 && ScalarColumn(rows, col)
    ensures Step(dtypes, rows, col, ans) == rows <==> MaxScalar(rows, col) % Day == 0
  {
    UntouchedDateInput(dtypes, rows, col, ans);
    InstantColumn(dtypes, rows, col);
    var hi := MaxScalar(rows, col);
    DayBounds(hi);
    var out := Step(dtypes, rows, col, ans);
    if hi % Day == 0 {
      TemporalStepIsWhere(dtypes, rows, col, ans);
      var days := ans.dates.GetOr(DefaultDays(rows, col));
      var ps := [Range(col, Midnight(days[0]), Midnight(days[1]))];
      assert out == Where(rows, ps);
      forall r | r in rows ensures HoldsAll(ps, r) {
        assert r in out;
      }
      WhereAllPass(rows, ps);
    } else {
      var top :| top in rows && hi == Scalar(top.cells[col]);
      assert top !in out;
    }
  }

  /** As written, the untouched date input hides the row holding the maximum whenever it is not a midnight. */
  lemma UntouchedDateInputDropsLatest(dtypes: seq<Dtype>, rows: seq<Row>, col: nat, ans: Answer)
    requires col < |dtypes| && WellFormed(dtypes, rows) && HasColumn(rows, col)
    requires KindOf(dtypes, rows, col) == Temporal && ans.dates.None?
    requires |rows| > 0 && ScalarColumn(rows, col) && MaxScalar(rows, col) % Day != 0
    ensures exists r :: r in rows && r.cells[col] == Instant(MaxScalar(rows, col)) && r !in Step(dtypes, rows, col, ans)
  {
    UntouchedDateInput(dtypes, rows, col, ans);
    InstantColumn(dtypes, rows, col);
    var hi := MaxScalar(rows, col);
    DayBounds(hi);
    var top :| top in rows && hi == Scalar(top.cells[col]);
    assert top.cells[col] == Instant(hi);
  }

  /** The date range evidently intended: whole days, from the first day's midnight to the second day's last tick. */
  function DayRange(col: nat, first: int, last: int): Pred
  {
    Range(col, Midnight(first), Midnight(last) + Day - 1)
  }

  lemma DayRangeSelectsDays(dtypes: seq<Dtype>, rows: seq<Row>, col: nat, first: int, last: int)
    requires col < |dtypes| && WellFormed(dtypes, rows) && HasColumn(rows, col)
    requires KindOf(dtypes, rows, col) == Temporal
    ensures forall r :: r in Where(rows, [DayRange(col, first, last)]) <==>
      r in rows && first <= DayOf(r.cells[col].ticks) <= last
  {
    WhereOne(rows, DayRange(col, first, last));
    InstantColumn(dtypes, rows, col);
    forall r | r in rows
      ensures Midnight(first) <= r.cells[col].ticks <= Midnight(last) + Day - 1 <==>
        first <= DayOf(r.cells[col].ticks) <= last
    {
      AfterMidnight(r.cells[col].ticks, first);
      BeforeDayEnd(r.cells[col].ticks, last);
    }
  }

  /**
   * The corrected date step: the rows whose calendar day lies between the two
   * chosen days, both included, so that the untouched input keeps every row.
   */
  function FixedTemporalStep(dtypes: seq<Dtype>, rows: seq<Row>, col: nat, ans: Answer): (out: seq<Row>)
    requires col < |dtypes| && WellFormed(dtypes, rows) && HasColumn(rows, col)
    requires KindOf(dtypes, rows, col) == Temporal
    ensures |rows| > 0 && ScalarColumn(rows, col)
    ensures var days := ans.dates.GetOr(DefaultDays(rows, col));
      (|days| != 2 ==> out == rows)
      && (|days| == 2 ==> forall r :: r in out <==> r in rows && days[0] <= DayOf(r.cells[col].ticks) <= days[1])
    ensures ans.dates.None? ==> out == rows
  {
    RangeColumn(dtypes, rows, col);
    var days := ans.dates.GetOr(DefaultDays(rows, col));
    if |days| == 2 then
      DayRangeSelectsDays(dtypes, rows, col, days[0], days[1]);
      FixedDefaultKeepsAll(dtypes, rows, col);
      Where(rows, [DayRange(col, days[0], days[1])])
    else
      rows
  }

  /** The corrected range between the days of the minimum and the maximum holds every row. */
  lemma FixedDefaultKeepsAll(dtypes: seq<Dtype>, rows: seq<Row>, col: nat)
    requires col < |dtypes| && WellFormed(dtypes, rows) && HasColumn(rows, col)
    requires KindOf(dtypes, rows, col) == Temporal
    ensures |rows| > 0 && ScalarColumn(rows, col)
    ensures Where(rows, [DayRange(col, DayOf(MinScalar(rows, col)), DayOf(MaxScalar(rows, col)))]) == rows
  {
    RangeColumn(dtypes, rows, col);
    InstantColumn(dtypes, rows, col);
    var p := DayRange(col, DayOf(MinScalar(rows, col)), DayOf(MaxScalar(rows, col)));
    DayRangeSelectsDays(dtypes, rows, col, DayOf(MinScalar(rows, col)), DayOf(MaxScalar(rows, col)));
    forall r | r in rows ensures HoldsAll([p], r) {
      var t := r.cells[col].ticks;
      AfterMidnight(t, DayOf(MinScalar(rows, col)));
      BeforeDayEnd(t, DayOf(MaxScalar(rows, col)));
      DayBounds(MinScalar(rows, col));
      DayBounds(MaxScalar(rows, col));
      HoldsAllCons(p, [], r);
      assert [p] + [] == [p];
    }
    WhereAllPass(rows, [p]);
  }

  /**
   * A text column changes nothing while the text box is empty, and otherwise keeps
   * the rows whose string contains the text.
   */
  lemma TextualStep(dtypes: seq<Dtype>, rows: seq<Row>, col: nat, ans: Answer)
    requires col < |dtypes| && WellFormed(dtypes, rows) && HasColumn(rows, col)
    requires KindOf(dtypes, rows, col) == Textual
    ensures ans.text == "" ==> Step(dtypes, rows, col, ans) == rows
    ensures ans.text != "" ==> forall r :: r in Step(dtypes, rows, col, ans) <==>
      r in rows && Contains(r.cells[col].s, ans.text)
  {
    if ans.text != "" {
      var p := Substring(col, ans.text);
      forall r | r in rows ensures (HoldsAll([p], r) <==> Contains(r.cells[col].s, ans.text)) {
        HoldsAllCons(p, [], r);
        assert [p] + [] == [p];
        assert RowFits(dtypes, r) && Fits(dtypes[col], r.cells[col]);
      }
    }
  }

  /**
   * The loop keeps exactly the rows that satisfy every predicate it built, which is
   * what applying those predicates one mask at a time, in any order, gives.
   */
  lemma {:induction false} RunIsConjunction(dtypes: seq<Dtype>, rows: seq<Row>, cols: seq<nat>, answers: seq<Answer>)
    requires Choices(|dtypes|, cols, answers) && WellFormed(dtypes, rows)
    ensures Run(dtypes, rows, cols, answers) == Where(rows, Resolved(dtypes, rows, cols, answers))
    ensures Run(dtypes, rows, cols, answers) == ApplyAll(rows, Resolved(dtypes, rows, cols, answers))
    decreases |cols|
  {
    var ps := Resolved(dtypes, rows, cols, answers);
    if cols == [] {
      WhereAllPass(rows, []);
    } else {
      var next := Step(dtypes, rows, cols[0], answers[0]);
      RunIsConjunction(dtypes, next, cols[1..], answers[1..]);
      var rest := Resolved(dtypes, next, cols[1..], answers[1..]);
      match Resolve(dtypes, rows, cols[0], answers[0])
      case None =>
        assert ps == rest;
      case Some(p) =>
        assert ps == [p] + rest;
        WhereThenWhere(rows, p, rest);
    }
    ApplyAllIsConjunction(rows, ps);
  }

  /** The loop returns an ordered selection of its input rows. */
  lemma {:induction false} RunKeepsOrder(dtypes: seq<Dtype>, rows: seq<Row>, cols: seq<nat>, answers: seq<Answer>)
    requires Choices(|dtypes|, cols, answers) && WellFormed(dtypes, rows)
    ensures Sub(Run(dtypes, rows, cols, answers), rows)
    ensures Increasing(rows) ==> Increasing(Run(dtypes, rows, cols, answers))
  {
    RunIsConjunction(dtypes, rows, cols, answers);
    if Increasing(rows) {
      SubKeepsIncreasing(Run(dtypes, rows, cols, answers), rows);
    }
  }

  /**
   * With every widget left at its default, and in particular with no filter
   * column, no row is dropped, provided every instant is a midnight (the untouched
   * date input drops the rows after midnight of a column's last day).
   */
  lemma {:induction false} UntouchedWidgetsKeepAll(dtypes: seq<Dtype>, rows: seq<Row>, cols: seq<nat>, answers: seq<Answer>)
    requires Choices(|dtypes|, cols, answers) && WellFormed(dtypes, rows)
    requires forall i :: 0 <= i < |answers| ==> answers[i] == Untouched
    requires InstantsAtMidnight(rows)
    ensures Run(dtypes, rows, cols, answers) == rows
    decreases |cols|
  {
    if cols != [] {
      var col, ans := cols[0], answers[0];
      ColumnOf(dtypes, rows, col);
      UntouchedWidgetsKeepAll(dtypes, rows, cols[1..], answers[1..]);
      match KindOf(dtypes, rows, col)
      case Categorical => CategoricalStep(dtypes, rows, col, ans);
      case Numeric => NumericStep(dtypes, rows, col, ans);
      case Temporal =>
        UntouchedDateInputKeepsAll(dtypes, rows, col, ans);
        InstantColumn(dtypes, rows, col);
        var top :| top in rows && MaxScalar(rows, col) == Scalar(top.cells[col]);
        assert top.cells[col].Instant?;
      case Textual => TextualStep(dtypes, rows, col, ans);
    }
  }

  /** Running the loop over one more column is one more pass over the rows it left. */
  lemma {:induction false} RunAppend(dtypes: seq<Dtype>, rows: seq<Row>, cols: seq<nat>, answers: seq<Answer>, col: nat, ans: Answer)
    requires Choices(|dtypes|, cols, answers) && WellFormed(dtypes, rows) && col < |dtypes|
    ensures Choices(|dtypes|, cols + [col], answers + [ans])
    ensures Run(dtypes, rows, cols + [col], answers + [ans]) ==
      Step(dtypes, Run(dtypes, rows, cols, answers), col, ans)
    decreases |cols|
  {
    var cols', answers' := cols + [col], answers + [ans];
    assert Choices(|dtypes|, cols', answers') by {
      forall i | 0 <= i < |cols'| ensures cols'[i] < |dtypes| {
        if i < |cols| {
          assert cols'[i] == cols[i];
        }
      }
    }
    if cols == [] {
      assert cols'[1..] == [] && answers'[1..] == [];
      assert Run(dtypes, rows, cols', answers') == Run(dtypes, Step(dtypes, rows, col, ans), [], []);
    } else {
      assert cols'[0] == cols[0] && answers'[0] == answers[0];
      assert cols'[1..] == cols[1..] + [col] && answers'[1..] == answers[1..] + [ans];
      var next := Step(dtypes, rows, cols[0], answers[0]);
      assert Choices(|dtypes|, cols[1..], answers[1..]) by {
        forall i | 0 <= i < |cols| - 1 ensures cols[1..][i] < |dtypes| {
          assert cols[1..][i] == cols[i + 1];
        }
      }
      RunAppend(dtypes, next, cols[1..], answers[1..], col, ans);
      assert Run(dtypes, rows, cols', answers') == Run(dtypes, next, cols'[1..], answers'[1..]);
      assert Run(dtypes, rows, cols, answers) == Run(dtypes, next, cols[1..], answers[1..]);
    }
  }

  /** The conversion pass turns string `s` into an instant when the parser accepts it. */
  function ConvertCell(c: Cell, parse: string -> Option<int>): Cell
  {
    if c.Str? && parse(c.s).Some? then Instant(parse(c.s).value) else c
  }

  /** Every value of the column is a string the parser accepts. */
  predicate ParsesAll(rows: seq<Row>, col: nat, parse: string -> Option<int>)
    requires HasColumn(rows, col)
  {
    forall i :: 0 <= i < |rows| ==> rows[i].cells[col].Str? && parse(rows[i].cells[col].s).Some?
  }

  /** `pd.to_datetime` succeeds on an object column exactly when every value parses. */
  predicate Converts(f: Frame, col: nat, parse: string -> Option<int>)
    requires col < |f.dtypes| && WellFormed(f.dtypes, f.rows)
  {
    ColumnOf(f.dtypes, f.rows, col);
    f.dtypes[col] == ObjectDtype && ParsesAll(f.rows, col, parse)
  }

  /** The frame after the conversion pass: each column that converts becomes a datetime column. */
  function Converted(f: Frame, parse: string -> Option<int>): Frame
    requires WellFormed(f.dtypes, f.rows)
  {
    var n := |f.dtypes|;
    Frame(
      seq(n, c requires 0 <= c < n => if Converts(f, c, parse) then DatetimeDtype else f.dtypes[c]),
      seq(|f.rows|, i requires 0 <= i < |f.rows| =>
        assert RowFits(f.dtypes, f.rows[i]);
        Row(f.rows[i].index, seq(n, c requires 0 <= c < n =>
          if Converts(f, c, parse) then ConvertCell(f.rows[i].cells[c], parse) else f.rows[i].cells[c]))))
  }

  /**
   * The conversion keeps the rows, their labels and the columns that do not
   * convert, leaves a well-formed frame, and converts exactly the object columns
   * whose every value parses.
   */
  lemma ConvertedShape(f: Frame, parse: string -> Option<int>)
    requires WellFormed(f.dtypes, f.rows)
    ensures var g := Converted(f, parse);
      && WellFormed(g.dtypes, g.rows)
      && |g.dtypes| == |f.dtypes| && |g.rows| == |f.rows|
      && (forall i :: 0 <= i < |f.rows| ==> |f.rows[i].cells| == |f.dtypes|)
      && (forall i :: 0 <= i < |f.rows| ==> g.rows[i].index == f.rows[i].index)
      && (forall c :: 0 <= c < |f.dtypes| ==>
            (g.dtypes[c] == DatetimeDtype <==> f.dtypes[c] == DatetimeDtype || Converts(f, c, parse))
            && (f.dtypes[c] != ObjectDtype ==> g.dtypes[c] == f.dtypes[c]))
      && (forall i, c :: 0 <= i < |f.rows| && 0 <= c < |f.dtypes| && !Converts(f, c, parse) ==>
            g.rows[i].cells[c] == f.rows[i].cells[c])
  {
    var g := Converted(f, parse);
    RowsFit(f.dtypes, f.rows);
    forall r | r in g.rows ensures RowFits(g.dtypes, r) {
      var i :| 0 <= i < |g.rows| && g.rows[i] == r;
      assert RowFits(f.dtypes, f.rows[i]);
      forall c | 0 <= c < |g.dtypes| ensures Fits(g.dtypes[c], r.cells[c]) {
        assert Fits(f.dtypes[c], f.rows[i].cells[c]);
      }
    }
  }

  /**
   * The loop over all columns before any filtering: an object column is replaced
   * by its `pd.to_datetime` conversion when that succeeds. The `tz_localize(None)`
   * that follows for datetime columns leaves the already naive instants as they are.
   */
  method ConvertTimestamps(f: Frame, parse: string -> Option<int>) returns (g: Frame)
    requires WellFormed(f.dtypes, f.rows)
    ensures g == Converted(f, parse)
  {
    ghost var want := Converted(f, parse);
    ConvertedShape(f, parse);
    RowsFit(f.dtypes, f.rows);
    g := f;
    for c := 0 to |f.dtypes|
      invariant |g.dtypes| == |f.dtypes| && |g.rows| == |f.rows|
      invariant forall k :: 0 <= k < |f.dtypes| ==> g.dtypes[k] == if k < c then want.dtypes[k] else f.dtypes[k]
      invariant forall i :: 0 <= i < |f.rows| ==> g.rows[i].index == f.rows[i].index && |g.rows[i].cells| == |f.dtypes|
      invariant forall i, k :: 0 <= i < |f.rows| && 0 <= k < |f.dtypes| ==>
        g.rows[i].cells[k] == if k < c then want.rows[i].cells[k] else f.rows[i].cells[k]
    {
      ColumnOf(f.dtypes, f.rows, c);
      var parses := forall i :: 0 <= i < |g.rows| ==> g.rows[i].cells[c].Str? && parse(g.rows[i].cells[c].s).Some?;
      assert parses == ParsesAll(f.rows, c, parse);
      if g.dtypes[c] == ObjectDtype && parses {
        var rows := g.rows;
        g := Frame(g.dtypes[c := DatetimeDtype],
          seq(|rows|, i requires 0 <= i < |rows| =>
            Row(rows[i].index, rows[i].cells[c := ConvertCell(rows[i].cells[c], parse)])));
      }
    }
    assert g.dtypes == want.dtypes;
    forall i | 0 <= i < |f.rows| ensures g.rows[i] == want.rows[i] {
      assert g.rows[i].cells == want.rows[i].cells;
    }
    assert g.rows == want.rows;
  }

  /** One more pass of the loop extends the prefix of chosen columns it has handled. */
  lemma PrefixStep(dtypes: seq<Dtype>, rows0: seq<Row>, cols: seq<nat>, answers: seq<Answer>, i: nat)
    requires Choices(|dtypes|, cols, answers) && WellFormed(dtypes, rows0) && i < |cols|
    ensures Choices(|dtypes|, cols[..i], answers[..i]) && Choices(|dtypes|, cols[..i + 1], answers[..i + 1])
    ensures Run(dtypes, rows0, cols[..i + 1], answers[..i + 1]) ==
      Step(dtypes, Run(dtypes, rows0, cols[..i], answers[..i]), cols[i], answers[i])
    ensures Run(dtypes, rows0, cols[..i + 1], answers[..i + 1]) ==
      Where(rows0, Resolved(dtypes, rows0, cols[..i + 1], answers[..i + 1]))
  {
    var pre, pans := cols[..i], answers[..i];
    var pre', pans' := cols[..i + 1], answers[..i + 1];
    assert pre' == pre + [cols[i]] && pans' == pans + [answers[i]];
    assert Choices(|dtypes|, pre, pans) by {
      forall j | 0 <= j < i ensures pre[j] < |dtypes| {
        assert pre[j] == cols[j];
      }
    }
    RunAppend(dtypes, rows0, pre, pans, cols[i], answers[i]);
    RunIsConjunction(dtypes, rows0, pre', pans');
  }

  /**
   * `filter_dataframe`: convert timestamps, then narrow the rows column by column.
   * The input frame is a value and is left as it was (the source copies it first).
   */
  method FilterDataframe(f: Frame, parse: string -> Option<int>, chosen: seq<nat>, answers: seq<Answer>)
    returns (g: Frame)
    requires WellFormed(f.dtypes, f.rows)
    requires Choices(|f.dtypes|, chosen, answers)
    ensures WellFormed(Converted(f, parse).dtypes, Converted(f, parse).rows)
    ensures |Converted(f, parse).dtypes| == |f.dtypes|
    ensures g.dtypes == Converted(f, parse).dtypes
    ensures WellFormed(g.dtypes, g.rows)
    ensures g.rows == Run(g.dtypes, Converted(f, parse).rows, chosen, answers)
  {
    var df := ConvertTimestamps(f, parse);
    ConvertedShape(f, parse);
    var rows := df.rows;
    var i := 0;
    RunIsConjunction(df.dtypes, df.rows, chosen[..0], answers[..0]);
    while i < |chosen|
      invariant 0 <= i <= |chosen|
      invariant Choices(|df.dtypes|, chosen[..i], answers[..i])
      invariant WellFormed(df.dtypes, rows)
      invariant rows == Run(df.dtypes, df.rows, chosen[..i], answers[..i])
      invariant rows == Where(df.rows, Resolved(df.dtypes, df.rows, chosen[..i], answers[..i]))
    {
      PrefixStep(df.dtypes, df.rows, chosen, answers, i);
      var p := Resolve(df.dtypes, rows, chosen[i], answers[i]);
      if p.Some? {
        rows := Where(rows, [p.value]);
      }
      i := i + 1;
    }
    assert chosen[..i] == chosen && answers[..i] == answers;
    g := Frame(df.dtypes, rows);
  }
}
