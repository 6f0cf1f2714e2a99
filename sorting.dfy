/**
 * The optional sort stage of `paginate_dataframe`:
 * `sort_values(by=col, ascending=..., ignore_index=True)`. Only its contract is
 * the point (a permutation of the rows, ordered by the key column, relabelled
 * 0..n-1); the insertion sort below exists to give the contract a definition
 * and is not the library's algorithm.
 */
module SortStage {
  import opened Wrappers
  import opened Cells
  import opened Frames

  datatype SortChoice = SortChoice(col: nat, ascending: bool)

  /** The cell tuples of the rows, without their index labels. */
  function Strip(rows: seq<Row>): seq<seq<Cell>>
  {
    seq(|rows|, i requires 0 <= i < |rows| => rows[i].cells)
  }

  /** `ignore_index=True`: the rows get the labels 0..n-1. */
  function Reindex(cs: seq<seq<Cell>>): seq<Row>
  {
    seq(|cs|, i requires 0 <= i < |cs| => Row(i, cs[i]))
  }

  predicate Precedes(a: Cell, b: Cell, ascending: bool)
  {
    if ascending then CellLe(a, b) else CellLe(b, a)
  }

  lemma PrecedesTotal(a: Cell, b: Cell, ascending: bool)
    ensures Precedes(a, b, ascending) || Precedes(b, a, ascending)
  {
    CellLeTotal(a, b);
  }

  lemma PrecedesTrans(a: Cell, b: Cell, c: Cell, ascending: bool)
    requires Precedes(a, b, ascending) && Precedes(b, c, ascending)
    ensures Precedes(a, c, ascending)
  {
    if ascending {
      CellLeTrans(a, b, c);
    } else {
      CellLeTrans(c, b, a);
    }
  }

  /** Every tuple has the key column. */
  predicate Keyed(cs: seq<seq<Cell>>, col: nat)
  {
    forall i :: 0 <= i < |cs| ==> col < |cs[i]|
  }

  predicate SortedBy(cs: seq<seq<Cell>>, col: nat, ascending: bool)
    requires Keyed(cs, col)
  {
    forall i, j :: 0 <= i < j < |cs| ==> Precedes(cs[i][col], cs[j][col], ascending)
  }

  function Insert(x: seq<Cell>, cs: seq<seq<Cell>>, col: nat, ascending: bool): (out: seq<seq<Cell>>)
    requires col < |x| && Keyed(cs, col)
    ensures |out| == |cs| + 1 && Keyed(out, col)
    ensures multiset(out) == multiset(cs) + multiset{x}
    decreases |cs|
  {
    if cs == [] then [x]
    else if Precedes(x[col], cs[0][col], ascending) then [x] + cs
    else
      assert cs == [cs[0]] + cs[1..];
      [cs[0]] + Insert(x, cs[1..], col, ascending)
  }

  /** Prepending an element that precedes everything keeps a sequence sorted. */
  lemma ConsSorted(h: seq<Cell>, cs: seq<seq<Cell>>, col: nat, ascending: bool)
    requires col < |h| && Keyed(cs, col) && SortedBy(cs, col, ascending)
    requires forall k :: 0 <= k < |cs| ==> Precedes(h[col], cs[k][col], ascending)
    ensures Keyed([h] + cs, col) && SortedBy([h] + cs, col, ascending)
  {
    var out := [h] + cs;
    forall i, j | 0 <= i < j < |out| ensures Precedes(out[i][col], out[j][col], ascending) {
      assert out[j] == cs[j - 1];
      if i > 0 {
        assert out[i] == cs[i - 1];
      }
    }
  }

  /** Whatever `Insert` puts after the head of a sorted sequence is `x` or a later element. */
  lemma InsertAfterHead(x: seq<Cell>, cs: seq<seq<Cell>>, col: nat, ascending: bool)
    requires col < |x| && cs != [] && Keyed(cs, col) && SortedBy(cs, col, ascending)
    requires Precedes(cs[0][col], x[col], ascending)
    ensures forall k :: 0 <= k < |Insert(x, cs[1..], col, ascending)| ==>
      Precedes(cs[0][col], Insert(x, cs[1..], col, ascending)[k][col], ascending)
  {
    var rest := Insert(x, cs[1..], col, ascending);
    forall k | 0 <= k < |rest| ensures Precedes(cs[0][col], rest[k][col], ascending) {
      assert rest[k] in multiset(rest);
      if rest[k] != x {
        assert rest[k] in cs[1..];
        var m :| 0 <= m < |cs[1..]| && cs[1..][m] == rest[k];
        assert cs[m + 1] == rest[k];
      }
    }
  }

  lemma {:induction false} InsertSorted(x: seq<Cell>, cs: seq<seq<Cell>>, col: nat, ascending: bool)
    requires col < |x| && Keyed(cs, col) && SortedBy(cs, col, ascending)
    ensures SortedBy(Insert(x, cs, col, ascending), col, ascending)
    decreases |cs|
  {
    if cs == [] {
    } else if Precedes(x[col], cs[0][col], ascending) {
      forall j | 0 < j < |cs| ensures Precedes(x[col], cs[j][col], ascending) {
        PrecedesTrans(x[col], cs[0][col], cs[j][col], ascending);
      }
      ConsSorted(x, cs, col, ascending);
    } else {
      PrecedesTotal(x[col], cs[0][col], ascending);
      TailFacts(cs, col, ascending);
      InsertSorted(x, cs[1..], col, ascending);
      InsertAfterHead(x, cs, col, ascending);
      ConsSorted(cs[0], Insert(x, cs[1..], col, ascending), col, ascending);
    }
  }

  function SortBy(cs: seq<seq<Cell>>, col: nat, ascending: bool): (out: seq<seq<Cell>>)
    requires Keyed(cs, col)
    ensures |out| == |cs| && Keyed(out, col) && SortedBy(out, col, ascending)
    ensures multiset(out) == multiset(cs)
    decreases |cs|
  {
    if cs == [] then []
    else
      var rest := SortBy(cs[1..], col, ascending);
      InsertSorted(cs[0], rest, col, ascending);
      assert cs == [cs[0]] + cs[1..];
      Insert(cs[0], rest, col, ascending)
  }

  /**
   * The rows sorted by column `col`: the same cell tuples with the same
   * multiplicities, ordered by the key in the chosen direction, relabelled 0..n-1.
   */
  function SortValues(rows: seq<Row>, col: nat, ascending: bool): (out: seq<Row>)
    requires HasColumn(rows, col)
    ensures |out| == |rows| && RangeIndexed(out)
    ensures multiset(Strip(out)) == multiset(Strip(rows))
    ensures Keyed(Strip(out), col) && SortedBy(Strip(out), col, ascending)
  {
    assert Keyed(Strip(rows), col) by {
      forall i | 0 <= i < |rows| ensures col < |Strip(rows)[i]| {
        assert rows[i] in rows;
      }
    }
    var sorted := SortBy(Strip(rows), col, ascending);
    assert Strip(Reindex(sorted)) == sorted;
    Reindex(sorted)
  }

  /** The stage as a whole: sort when the user asks to, otherwise pass the rows, labels and all. */
  function SortStep(rows: seq<Row>, choice: Option<SortChoice>): (out: seq<Row>)
    requires choice.Some? ==> HasColumn(rows, choice.value.col)
    ensures |out| == |rows| && multiset(Strip(out)) == multiset(Strip(rows))
    ensures choice.None? ==> out == rows
    ensures choice.Some? ==>
      RangeIndexed(out) && Keyed(Strip(out), choice.value.col) &&
      SortedBy(Strip(out), choice.value.col, choice.value.ascending)
  {
    match choice
    case None => rows
    case Some(c) => SortValues(rows, c.col, c.ascending)
  }

  /** All the key cells differ. */
  predicate DistinctKeys(cs: seq<seq<Cell>>, col: nat)
    requires Keyed(cs, col)
  {
    forall i, j :: 0 <= i < j < |cs| ==> cs[i][col] != cs[j][col]
  }

  function Reverse<T>(s: seq<T>): (r: seq<T>)
    ensures |r| == |s|
  {
    if s == [] then [] else Reverse(s[1..]) + [s[0]]
  }

  lemma {:induction false} ReverseAt<T>(s: seq<T>)
    ensures forall i :: 0 <= i < |s| ==> Reverse(s)[i] == s[|s| - 1 - i]
    ensures multiset(Reverse(s)) == multiset(s)
  {
    if s != [] {
      ReverseAt(s[1..]);
      assert s == [s[0]] + s[1..];
    }
  }

  /** `s` with position `k` removed. */
  function Without<T>(s: seq<T>, k: nat): seq<T>
    requires k < |s|
  {
    s[..k] + s[k + 1..]
  }

  lemma MultisetRemoveAt<T>(s: seq<T>, k: nat)
    requires k < |s|
    ensures multiset(Without(s, k)) == multiset(s) - multiset{s[k]}
  {
    assert s == s[..k] + [s[k]] + s[k + 1..];
  }

  lemma MultisetTail<T>(s: seq<T>)
    requires s != []
    ensures multiset(s[1..]) == multiset(s) - multiset{s[0]}
  {
    assert s == [s[0]] + s[1..];
  }

  lemma InMultisetAt<T>(x: T, s: seq<T>) returns (k: nat)
    requires x in multiset(s)
    ensures k < |s| && s[k] == x
  {
    k :| 0 <= k < |s| && s[k] == x;
  }

  lemma TailFacts(cs: seq<seq<Cell>>, col: nat, ascending: bool)
    requires cs != [] && Keyed(cs, col)
    ensures Keyed(cs[1..], col)
    ensures SortedBy(cs, col, ascending) ==> SortedBy(cs[1..], col, ascending)
    ensures DistinctKeys(cs, col) ==> DistinctKeys(cs[1..], col)
  {
  }

  /** The head of a sorted sequence precedes every element. */
  lemma HeadPrecedes(cs: seq<seq<Cell>>, k: nat, col: nat, ascending: bool)
    requires Keyed(cs, col) && SortedBy(cs, col, ascending) && k < |cs|
    ensures Precedes(cs[0][col], cs[k][col], ascending)
  {
    CellLeRefl(cs[0][col]);
  }

  lemma PrecedesAntisym(a: Cell, b: Cell, ascending: bool)
    requires Precedes(a, b, ascending) && Precedes(b, a, ascending)
    ensures a == b
  {
    CellLeAntisym(a, b);
  }

  /** With distinct keys there is one sorted arrangement of a multiset of tuples. */
  lemma {:induction false} SortedUnique(xs: seq<seq<Cell>>, ys: seq<seq<Cell>>, col: nat, ascending: bool)
    requires Keyed(xs, col) && Keyed(ys, col)
    requires multiset(xs) == multiset(ys)
    requires SortedBy(xs, col, ascending) && SortedBy(ys, col, ascending)
    requires DistinctKeys(xs, col)
    ensures xs == ys
    decreases |xs|
  {
    assert |xs| == |multiset(xs)| == |ys|;
    if xs != [] {
      assert ys[0] in multiset(ys) && xs[0] in multiset(xs);
      var k := InMultisetAt(ys[0], xs);
      var m := InMultisetAt(xs[0], ys);
      HeadPrecedes(xs, k, col, ascending);
      HeadPrecedes(ys, m, col, ascending);
      PrecedesAntisym(xs[0][col], ys[0][col], ascending);
      assert k == 0;
      assert ys[0] == xs[0];
      MultisetTail(xs);
      MultisetTail(ys);
      TailFacts(xs, col, ascending);
      TailFacts(ys, col, ascending);
      SortedUnique(xs[1..], ys[1..], col, ascending);
      assert xs == [xs[0]] + xs[1..] && ys == [ys[0]] + ys[1..];
    }
  }

  /**
   * When no two rows share a key value, sorting descending gives exactly the
   * reverse of sorting ascending.
   */
  lemma DescendingReversesAscending(rows: seq<Row>, col: nat)
    requires HasColumn(rows, col)
    requires Keyed(Strip(rows), col) && DistinctKeys(Strip(rows), col)
    ensures Strip(SortValues(rows, col, false)) == Reverse(Strip(SortValues(rows, col, true)))
  {
    var up := Strip(SortValues(rows, col, true));
    var down := Strip(SortValues(rows, col, false));
    var rev := Reverse(up);
    ReverseAt(up);
    assert Keyed(rev, col);
    assert SortedBy(rev, col, false) by {
      forall i, j | 0 <= i < j < |rev| ensures Precedes(rev[i][col], rev[j][col], false) {
        assert rev[i] == up[|up| - 1 - i] && rev[j] == up[|up| - 1 - j];
      }
    }
    DistinctKeysPerm(Strip(rows), down, col);
    SortedUnique(down, rev, col, false);
  }

  /** Dropping position `k` keeps the keys of the other positions distinct. */
  lemma DistinctWithout(xs: seq<seq<Cell>>, k: nat, col: nat)
    requires Keyed(xs, col) && DistinctKeys(xs, col) && k < |xs|
    ensures Keyed(Without(xs, k), col)
    ensures DistinctKeys(Without(xs, k), col)
    ensures forall p :: 0 <= p < k ==> Without(xs, k)[p] == xs[p]
    ensures forall p :: k <= p < |xs| - 1 ==> Without(xs, k)[p] == xs[p + 1]
  {
    var xs' := Without(xs, k);
    forall p | 0 <= p < |xs'| ensures xs'[p] == xs[if p < k then p else p + 1] {
    }
    forall p, q | 0 <= p < q < |xs'| ensures xs'[p][col] != xs'[q][col] {
      assert xs'[p] == xs[if p < k then p else p + 1];
      assert xs'[q] == xs[if q < k then q else q + 1];
    }
  }

  /** Distinct keys are a property of the multiset of tuples, whatever their arrangement. */
  lemma {:induction false} DistinctKeysPerm(xs: seq<seq<Cell>>, ys: seq<seq<Cell>>, col: nat)
    requires Keyed(xs, col) && Keyed(ys, col)
    requires multiset(xs) == multiset(ys)
    requires DistinctKeys(xs, col)
    ensures DistinctKeys(ys, col)
    decreases |ys|
  {
    if ys != [] {
      var y := ys[0];
      assert y in multiset(ys);
      var k := InMultisetAt(y, xs);
      var xs' := Without(xs, k);
      MultisetRemoveAt(xs, k);
      MultisetRemoveAt(ys, 0);
      DistinctWithout(xs, k, col);
      TailFacts(ys, col, true);
      DistinctKeysPerm(xs', ys[1..], col);
      forall j | 0 < j < |ys| ensures y[col] != ys[j][col] {
        assert ys[j] == ys[1..][j - 1];
        assert ys[j] in multiset(xs');
        var p := InMultisetAt(ys[j], xs');
        assert xs[if p < k then p else p + 1] == ys[j];
      }
      forall i, j | 0 <= i < j < |ys| ensures ys[i][col] != ys[j][col] {
        if i > 0 {
          assert ys[i] == ys[1..][i - 1] && ys[j] == ys[1..][j - 1];
        }
      }
    }
  }

}
