/**
 * `split_frame` and the page arithmetic and page lookup of `paginate_dataframe`,
 * as written, beside the positional chunking and the page count they were
 * evidently meant to compute.
 */
module Pagination {
  import opened Wrappers
  import opened Frames
  import opened Seqs
  import opened SortStage

  /** `ceil(n / k)` for the row counts involved. */
  function CeilDiv(n: nat, k: nat): nat
    requires k > 0
  {
    (n + k - 1) / k
  }

  function Min(a: int, b: int): int
  {
    if a <= b then a else b
  }

  lemma MulSucc(j: nat, k: nat)
    ensures j * k + k == (j + 1) * k
  {
  }

  lemma MulMono(a: nat, b: nat, k: nat)
    requires a <= b
    ensures a * k <= b * k
  {
    var d: nat := b - a;
    assert b * k == a * k + d * k;
  }

  /** The quotient is the unique q with x == q*k + r and 0 <= r < k. */
  lemma DivUnique(x: nat, k: nat, q: nat, r: nat)
    requires 0 < k && r < k && x == q * k + r
    ensures x / k == q
  {
    var q0 := x / k;
    assert x == q0 * k + x % k;
    if q0 < q {
      MulMono(q0 + 1, q, k);
      MulSucc(q0, k);
    } else if q0 > q {
      MulMono(q + 1, q0, k);
      MulSucc(q, k);
    }
  }

  lemma DivStep(a: nat, k: nat)
    requires k > 0
    ensures (a + k) / k == a / k + 1
  {
    var q, r := a / k, a % k;
    assert a == q * k + r;
    MulSucc(q, k);
    DivUnique(a + k, k, q + 1, r);
  }

  lemma DivOne(a: nat, k: nat)
    requires 0 < k <= a < 2 * k
    ensures a / k == 1
  {
    DivUnique(a, k, 1, a - k);
  }

  /** Consecutive slices of `k` elements taken by position; the last may be shorter. */
  function Chunks<T>(xs: seq<T>, k: nat): seq<seq<T>>
    requires k > 0
    decreases |xs|
  {
    if xs == [] then []
    else if |xs| <= k then [xs]
    else [xs[..k]] + Chunks(xs[k..], k)
  }

  /** One chunk per start 0, k, 2k, ... below n: ceil(n / k) of them, none for no rows. */
  lemma {:induction false} ChunksCount<T>(xs: seq<T>, k: nat)
    requires k > 0
    ensures |Chunks(xs, k)| == CeilDiv(|xs|, k)
    ensures xs == [] <==> Chunks(xs, k) == []
    decreases |xs|
  {
    var n := |xs|;
    if xs == [] {
      assert (k - 1) / k == 0;
    } else if n <= k {
      DivOne(n + k - 1, k);
    } else {
      ChunksCount(xs[k..], k);
      DivStep(n - 1, k);
      assert (n - k) + k - 1 == n - 1;
    }
  }

  /** Every page is non-empty and at most `k` long, and all but the last are exactly `k` long. */
  predicate Sized<T>(pages: seq<seq<T>>, k: nat)
  {
    forall j :: 0 <= j < |pages| ==>
      0 < |pages[j]| <= k && (j < |pages| - 1 ==> |pages[j]| == k)
  }

  lemma {:induction false} ChunksShape<T>(xs: seq<T>, k: nat)
    requires k > 0
    ensures Sized(Chunks(xs, k), k)
    decreases |xs|
  {
    var pages := Chunks(xs, k);
    if |xs| > k {
      var tail := Chunks(xs[k..], k);
      ChunksShape(xs[k..], k);
      assert pages == [xs[..k]] + tail;
      forall j | 0 <= j < |pages|
        ensures 0 < |pages[j]| <= k && (j < |pages| - 1 ==> |pages[j]| == k)
      {
        if j > 0 {
          assert pages[j] == tail[j - 1];
        }
      }
    }
  }

  lemma SliceOfDrop<T>(xs: seq<T>, k: nat, a: nat, b: nat)
    requires k <= |xs| && a <= b <= |xs| - k
    ensures xs[k..][a..b] == xs[k + a .. k + b]
  {
  }

  /** Chunk `j` is the slice of the input from `j*k` up to `j*k + k` or the end. */
  lemma {:induction false} ChunkAt<T>(xs: seq<T>, k: nat, j: nat)
    requires k > 0 && j < |Chunks(xs, k)|
    ensures j * k < |xs|
    ensures Chunks(xs, k)[j] == xs[j * k .. Min(j * k + k, |xs|)]
    decreases |xs|
  {
    if j > 0 {
      var tail := xs[k..];
      assert Chunks(xs, k) == [xs[..k]] + Chunks(tail, k);
      ChunkAt(tail, k, j - 1);
      var s := (j - 1) * k;
      MulSucc(j - 1, k);
      assert s + k == j * k;
      SliceOfDrop(xs, k, s, Min(s + k, |xs| - k));
    }
  }

  /** Concatenating the chunks in order gives back the input: nothing dropped, nothing repeated. */
  lemma {:induction false} ChunksFlatten<T>(xs: seq<T>, k: nat)
    requires k > 0
    ensures Flatten(Chunks(xs, k)) == xs
    decreases |xs|
  {
    if xs != [] && |xs| > k {
      ChunksFlatten(xs[k..], k);
      assert xs == xs[..k] + xs[k..];
    }
  }

  /** `index.searchsorted(a)`: how many rows carry a label below `a`. */
  function CountBelow(rows: seq<Row>, a: int): (c: nat)
    ensures c <= |rows|
  {
    if rows == [] then 0
    else (if rows[0].index < a then 1 else 0) + CountBelow(rows[1..], a)
  }

  lemma {:induction false} CountBelowMonotone(rows: seq<Row>, a: int, b: int)
    requires a <= b
    ensures CountBelow(rows, a) <= CountBelow(rows, b)
  {
    if rows != [] {
      CountBelowMonotone(rows[1..], a, b);
    }
  }

  /** On increasing labels, the rows labelled below `a` are exactly the first `CountBelow(rows, a)`. */
  lemma {:induction false} CountBelowSplits(rows: seq<Row>, a: int)
    requires Increasing(rows)
    ensures forall i :: 0 <= i < |rows| ==> (rows[i].index < a <==> i < CountBelow(rows, a))
  {
    if rows != [] {
      var tail := rows[1..];
      CountBelowSplits(tail, a);
      forall i | 0 < i < |rows| ensures rows[i] == tail[i - 1] {
      }
    }
  }

  /** `.loc[a : b]`: the rows labelled from `a` to `b` inclusive, as slice bounds found by label. */
  function Loc(rows: seq<Row>, a: int, b: int): seq<Row>
    requires a <= b + 1
  {
    CountBelowMonotone(rows, a, b + 1);
    rows[CountBelow(rows, a) .. CountBelow(rows, b + 1)]
  }

  /** On increasing labels, `.loc[a : b]` holds exactly the rows labelled a..b, both ends included. */
  lemma LocSelectsLabels(rows: seq<Row>, a: int, b: int)
    requires Increasing(rows) && a <= b + 1
    ensures forall r :: r in Loc(rows, a, b) <==> r in rows && a <= r.index <= b
  {
    CountBelowSplits(rows, a);
    CountBelowSplits(rows, b + 1);
    CountBelowMonotone(rows, a, b + 1);
    var lo, hi := CountBelow(rows, a), CountBelow(rows, b + 1);
    forall r | r in rows && a <= r.index <= b ensures r in Loc(rows, a, b) {
      var i :| 0 <= i < |rows| && rows[i] == r;
      assert rows[lo..hi][i - lo] == r;
    }
  }

  /**
   * `split_frame` as written: one `.loc[i : i + num_rows - 1]` per start
   * `i` in `range(0, len(input_df), num_rows)`.
   */
  function SplitFrame(rows: seq<Row>, k: nat): (pages: seq<seq<Row>>)
    requires k > 0 && Increasing(rows)
    ensures |pages| == CeilDiv(|rows|, k)
  {
    Pages(rows, k, CeilDiv(|rows|, k))
  }

  /** Page `j` of `split_frame` holds exactly the rows labelled j*k up to j*k + k - 1. */
  lemma SplitFramePage(rows: seq<Row>, k: nat, j: nat)
    requires k > 0 && Increasing(rows) && j < CeilDiv(|rows|, k)
    ensures forall r :: r in SplitFrame(rows, k)[j] <==> r in rows && j * k <= r.index <= j * k + k - 1
  {
    var s := j * k;
    assert SplitFrame(rows, k)[j] == Loc(rows, s, s + k - 1);
    LocSelectsLabels(rows, s, s + k - 1);
  }

  /** The first `m` pages `split_frame` builds. */
  function Pages(rows: seq<Row>, k: nat, m: nat): seq<seq<Row>>
    requires k > 0
  {
    seq(m, j requires 0 <= j < m => Loc(rows, j * k, j * k + k - 1))
  }

  lemma PagesSnoc(rows: seq<Row>, k: nat, j: nat)
    requires k > 0
    ensures Pages(rows, k, j + 1) == Pages(rows, k, j) + [Loc(rows, j * k, j * k + k - 1)]
  {
  }

  lemma LocAsSlice(rows: seq<Row>, a: int, b: int)
    requires a <= b + 1
    ensures CountBelow(rows, a) <= CountBelow(rows, b + 1)
    ensures Loc(rows, a, b) == rows[CountBelow(rows, a) .. CountBelow(rows, b + 1)]
  {
    CountBelowMonotone(rows, a, b + 1);
  }

  lemma {:induction false} PagesTelescope(rows: seq<Row>, k: nat, m: nat)
    requires k > 0
    ensures CountBelow(rows, 0) <= CountBelow(rows, m * k)
    ensures Flatten(Pages(rows, k, m)) == rows[CountBelow(rows, 0) .. CountBelow(rows, m * k)]
  {
    if m > 0 {
      var j := m - 1;
      var s := j * k;
      PagesTelescope(rows, k, j);
      MulSucc(j, k);
      LocAsSlice(rows, s, s + k - 1);
      var page := Loc(rows, s, s + k - 1);
      PagesSnoc(rows, k, j);
      FlattenAppend(Pages(rows, k, j), [page]);
      assert Flatten([page]) == page;
      var a, b, c := CountBelow(rows, 0), CountBelow(rows, s), CountBelow(rows, s + k);
      assert rows[a..b] + rows[b..c] == rows[a..c];
    }
  }

  /**
   * What the pages of `split_frame` hold together: exactly the rows labelled from
   * 0 up to (but excluding) ceil(n / k) * k. Any row labelled higher is on no page.
   */
  lemma SplitFrameShowsLowLabels(rows: seq<Row>, k: nat)
    requires k > 0 && Increasing(rows)
    ensures forall r :: r in Flatten(SplitFrame(rows, k)) <==>
      r in rows && 0 <= r.index < CeilDiv(|rows|, k) * k
  {
    var top := CeilDiv(|rows|, k) * k;
    PagesTelescope(rows, k, CeilDiv(|rows|, k));
    CountBelowSplits(rows, 0);
    CountBelowSplits(rows, top);
    var lo, hi := CountBelow(rows, 0), CountBelow(rows, top);
    forall r | r in rows && 0 <= r.index < top ensures r in rows[lo..hi] {
      var i :| 0 <= i < |rows| && rows[i] == r;
      assert rows[lo..hi][i - lo] == r;
    }
  }

  /** On a fresh 0..n-1 index, label slices and position slices agree. */
  lemma CountBelowOnRangeIndex(rows: seq<Row>, a: nat)
    requires RangeIndexed(rows)
    ensures CountBelow(rows, a) == Min(a, |rows|)
  {
    assert Increasing(rows);
    CountBelowSplits(rows, a);
    var c, m := CountBelow(rows, a), Min(a, |rows|);
    if m > 0 {
      assert rows[m - 1].index == m - 1;
    }
    if c > 0 {
      assert rows[c - 1].index == c - 1;
    }
  }

  /** On labels 0..n-1, the label slice from `a` up to `e - 1` is the position slice. */
  lemma LocOnRangeIndex(rows: seq<Row>, a: nat, e: nat)
    requires RangeIndexed(rows) && a < |rows| && a <= e
    ensures Loc(rows, a, e - 1) == rows[a..Min(e, |rows|)]
  {
    LocAsSlice(rows, a, e - 1);
    CountBelowOnRangeIndex(rows, a);
    CountBelowOnRangeIndex(rows, e);
  }

  /** On labels 0..n-1, the label slice for page `j` is chunk `j`. */
  lemma LocIsChunk(rows: seq<Row>, k: nat, j: nat)
    requires k > 0 && RangeIndexed(rows) && j < |Chunks(rows, k)|
    ensures Loc(rows, j * k, j * k + k - 1) == Chunks(rows, k)[j]
  {
    var s := j * k;
    ChunkAt(rows, k, j);
    LocOnRangeIndex(rows, s, s + k);
  }

  /** With row labels 0..n-1, which the sort path guarantees, `split_frame` is positional chunking. */
  lemma SplitFrameOnRangeIndex(rows: seq<Row>, k: nat)
    requires k > 0 && RangeIndexed(rows)
    ensures Increasing(rows)
    ensures SplitFrame(rows, k) == Chunks(rows, k)
  {
    var pages := SplitFrame(rows, k);
    ChunksCount(rows, k);
    forall j | 0 <= j < |pages| ensures pages[j] == Chunks(rows, k)[j] {
      LocIsChunk(rows, k, j);
    }
  }

  /**
   * A frame filtered without sorting keeps its old labels. Rows labelled 0 and 30,
   * 25 rows per page: `range(0, 2, 25)` gives one page, `.loc[0 : 24]`, and the
   * row labelled 30 is on no page.
   */
  lemma SplitFrameLosesFilteredRow()
    ensures var rows := [Row(0, []), Row(30, [])];
      Increasing(rows) && Row(30, []) in rows && Row(30, []) !in Flatten(SplitFrame(rows, 25))
  {
    var rows := [Row(0, []), Row(30, [])];
    assert CeilDiv(2, 25) == 1;
    SplitFrameShowsLowLabels(rows, 25);
  }

  /** `total_pages` as written: `ceil(n / b)` plus one more whenever b does not divide n. */
  function TotalPages(n: nat, b: nat): (t: nat)
    requires b > 0
    ensures t == 0 <==> n == 0
    ensures n % b == 0 ==> t * b == n
    ensures n % b != 0 ==> (t - 2) * b < n < (t - 1) * b
  {
    CeilDivBounds(n, b);
    CeilDiv(n, b) + (if n % b > 0 then 1 else 0)
  }

  /** ceil(n / b) pages of b fit n exactly when b divides n, and otherwise overshoot by less than one page. */
  lemma CeilDivBounds(n: nat, b: nat)
    requires b > 0
    ensures CeilDiv(n, b) == 0 <==> n == 0
    ensures n % b == 0 ==> CeilDiv(n, b) * b == n
    ensures n % b != 0 ==> CeilDiv(n, b) >= 1 && (CeilDiv(n, b) - 1) * b < n < CeilDiv(n, b) * b
  {
    var q, r := n / b, n % b;
    assert n == q * b + r;
    if r == 0 {
      DivUnique(n + b - 1, b, q, b - 1);
    } else {
      MulSucc(q, b);
      DivUnique(n + b - 1, b, q + 1, r - 1);
    }
  }

  /**
   * `total_pages` is the number of chunks when b divides n and one more otherwise,
   * and 0 when there are no rows.
   */
  lemma TotalPagesVsChunks<T>(xs: seq<T>, b: nat)
    requires b > 0
    ensures TotalPages(|xs|, b) == |Chunks(xs, b)| + (if |xs| % b == 0 then 0 else 1)
    ensures xs == [] ==> TotalPages(|xs|, b) == 0
  {
    ChunksCount(xs, b);
  }

  /** `pages[current_page - 1]`; `None` stands for the `IndexError` past the last page. */
  function SelectPage<T>(pages: seq<T>, current: int): Option<T>
    requires current >= 1
  {
    if current - 1 < |pages| then Some(pages[current - 1]) else None
  }

  /** The table shown and the pages `paginate_dataframe` returns. */
  datatype PageView = PageView(pages: seq<seq<Row>>, shown: Option<seq<Row>>)

  /** The sort path relabels 0..n-1, so its rows are increasingly labelled; the other path keeps its labels. */
  lemma SortStepIncreasing(rows: seq<Row>, choice: Option<SortChoice>)
    requires choice.Some? ==> HasColumn(rows, choice.value.col)
    requires Increasing(rows)
    ensures Increasing(SortStep(rows, choice))
  {
  }

  /**
   * `paginate_dataframe` as written, with the widgets' values as parameters: the
   * number input lets `current` range over 1..total_pages.
   */
  function PaginateDataframe(rows: seq<Row>, choice: Option<SortChoice>, batch: nat, current: nat): (v: PageView)
    requires batch > 0 && Increasing(rows)
    requires choice.Some? ==> HasColumn(rows, choice.value.col)
    requires 1 <= current <= TotalPages(|rows|, batch)
    ensures |v.pages| == CeilDiv(|rows|, batch)
    ensures v.shown.Some? <==> current <= |v.pages|
    ensures v.shown.Some? ==> v.shown.value == v.pages[current - 1]
    ensures choice.None? ==> v.pages == SplitFrame(rows, batch)
  {
    SortStepIncreasing(rows, choice);
    var dataset := SortStep(rows, choice);
    var pages := SplitFrame(dataset, batch);
    PageView(pages, SelectPage(pages, current))
  }

  /**
   * After a sort the pages are chunks of the sorted rows: they concatenate to the
   * sorted rows exactly, each holds 1..batch rows and all but the last hold batch.
   */
  lemma SortedPagesCoverRows(rows: seq<Row>, choice: Option<SortChoice>, batch: nat, current: nat)
    requires batch > 0 && Increasing(rows)
    requires choice.Some? && HasColumn(rows, choice.value.col)
    requires 1 <= current <= TotalPages(|rows|, batch)
    ensures var v := PaginateDataframe(rows, choice, batch, current);
      v.pages == Chunks(SortStep(rows, choice), batch)
      && Flatten(v.pages) == SortStep(rows, choice)
      && Sized(v.pages, batch)
  {
    var dataset := SortStep(rows, choice);
    SplitFrameOnRangeIndex(dataset, batch);
    ChunksFlatten(dataset, batch);
    ChunksShape(dataset, batch);
  }

  /** Without a sort, the pages hold exactly the rows whose label lies in 0 .. ceil(n / batch) * batch - 1. */
  lemma UnsortedPagesShowLowLabels(rows: seq<Row>, batch: nat, current: nat)
    requires batch > 0 && Increasing(rows)
    requires 1 <= current <= TotalPages(|rows|, batch)
    ensures forall r :: r in Flatten(PaginateDataframe(rows, None, batch, current).pages) <==>
      r in rows && 0 <= r.index < CeilDiv(|rows|, batch) * batch
  {
    SplitFrameShowsLowLabels(rows, batch);
  }

  /**
   * Every page number below `total_pages` shows a page; the last one does so only
   * when batch divides the row count, and otherwise indexes past the end of `pages`.
   */
  lemma LastPageIndexError(rows: seq<Row>, choice: Option<SortChoice>, batch: nat, current: nat)
    requires batch > 0 && Increasing(rows)
    requires choice.Some? ==> HasColumn(rows, choice.value.col)
    requires 1 <= current <= TotalPages(|rows|, batch)
    ensures var v := PaginateDataframe(rows, choice, batch, current);
      v.shown.None? <==> (|rows| % batch != 0 && current == TotalPages(|rows|, batch))
  {
  }

  /**
   * With no rows left after filtering, `total_pages` is 0 and no page number meets
   * `1 <= current <= total_pages`: the number input has no value to offer. The
   * corrected count still has its one (empty) page.
   */
  lemma EmptyFrameHasNoPageNumber(batch: nat, current: int)
    requires batch > 0
    ensures TotalPages(0, batch) == 0
    ensures !(1 <= current <= TotalPages(0, batch))
    ensures PageCount(0, batch) == 1
  {
  }

  /**
   * 30 rows, 25 per page: `total_pages` is 2 + 1 == 3 but there are 2 pages, so
   * page 3 indexes past the end.
   */
  lemma ThirtyRowsThreePageNumbers(rows: seq<Row>)
    requires |rows| == 30 && Increasing(rows)
    ensures TotalPages(|rows|, 25) == 3
    ensures |PaginateDataframe(rows, None, 25, 3).pages| == 2
    ensures PaginateDataframe(rows, None, 25, 3).shown.None?
  {
    assert CeilDiv(30, 25) == 2;
  }

  /** The page count evidently intended: one page per chunk, and one empty page for no rows. */
  function PageCount(n: nat, b: nat): nat
    requires b > 0
  {
    if n == 0 then 1 else CeilDiv(n, b)
  }

  /** Page `current` (1-based) of positional chunks; the single page of an empty frame is empty. */
  function Page(rows: seq<Row>, b: nat, current: nat): seq<Row>
    requires b > 0 && 1 <= current <= PageCount(|rows|, b)
  {
    ChunksCount(rows, b);
    var pages := Chunks(rows, b);
    if pages == [] then [] else pages[current - 1]
  }

  /**
   * The corrected count matches the chunks, so every page number the number input
   * allows shows rows (current-1)*b up to current*b or the end, in order.
   */
  lemma PageCountMatchesChunks(rows: seq<Row>, b: nat, current: nat)
    requires b > 0 && 1 <= current <= PageCount(|rows|, b)
    ensures rows != [] ==> PageCount(|rows|, b) == |Chunks(rows, b)|
    ensures rows == [] ==> Page(rows, b, current) == []
    ensures rows != [] ==>
      (current - 1) * b < |rows| &&
      Page(rows, b, current) == rows[(current - 1) * b .. Min(current * b, |rows|)]
  {
    ChunksCount(rows, b);
    if rows != [] {
      ChunkAt(rows, b, current - 1);
      MulSucc(current - 1, b);
    }
  }

  /**
   * The corrected paginator: sort when asked, chunk by position, and fetch the page;
   * its pages cover the (sorted) rows exactly on both paths.
   */
  function PaginateFixed(rows: seq<Row>, choice: Option<SortChoice>, batch: nat, current: nat): PageView
    requires batch > 0
    requires choice.Some? ==> HasColumn(rows, choice.value.col)
    requires 1 <= current <= PageCount(|rows|, batch)
  {
    var dataset := SortStep(rows, choice);
    PageView(Chunks(dataset, batch), Some(Page(dataset, batch, current)))
  }

  lemma FixedPagesCoverRows(rows: seq<Row>, choice: Option<SortChoice>, batch: nat, current: nat)
    requires batch > 0
    requires choice.Some? ==> HasColumn(rows, choice.value.col)
    requires 1 <= current <= PageCount(|rows|, batch)
    ensures var v := PaginateFixed(rows, choice, batch, current);
      Flatten(v.pages) == SortStep(rows, choice)
      && (choice.None? ==> Flatten(v.pages) == rows)
      && Sized(v.pages, batch)
  {
    ChunksFlatten(SortStep(rows, choice), batch);
    ChunksShape(SortStep(rows, choice), batch);
  }
}
