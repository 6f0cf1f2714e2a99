/**
 * Row predicates of the four filter kinds and the two ways of applying a list of
 * them: one mask after another, as the loop of `filter_dataframe` does, and the
 * reference definition, one conjunctive mask.
 */
module Filters {
  import opened Cells
  import opened Frames
  import opened Seqs

  /**
   * A column predicate: membership (categorical widget), inclusive range (numeric
   * slider and date range) or substring (text input).
   */
  datatype Pred =
    | Member(col: nat, allowed: set<Cell>)
    | Range(col: nat, lo: int, hi: int)
    | Substring(col: nat, pattern: string)

  /** One entry of a boolean mask: `isin`, `between` or `astype(str).str.contains`. */
  predicate Holds(p: Pred, r: Row)
  {
    p.col < |r.cells| &&
    match p
    case Member(c, allowed) => r.cells[c] in allowed
    case Range(c, lo, hi) => Between(r.cells[c], lo, hi)
    case Substring(c, pattern) => r.cells[c].Str? && Contains(r.cells[c].s, pattern)
  }

  predicate HoldsAll(ps: seq<Pred>, r: Row)
  {
    forall i :: 0 <= i < |ps| ==> Holds(ps[i], r)
  }

  /** `df[mask]` for the conjunction of `ps`: the rows passing every predicate, in order. */
  function Where(rows: seq<Row>, ps: seq<Pred>): (out: seq<Row>)
    ensures Sub(out, rows)
    ensures forall r :: r in out <==> r in rows && HoldsAll(ps, r)
    decreases |rows|
  {
    if rows == [] then []
    else
      var rest := Where(rows[1..], ps);
      assert forall r :: r in rows <==> r == rows[0] || r in rows[1..];
      if HoldsAll(ps, rows[0]) then [rows[0]] + rest else rest
  }

  /** The mask keeps every copy of a passing row and no copy of a failing one. */
  lemma {:induction false} WhereMultiplicity(rows: seq<Row>, ps: seq<Pred>)
    ensures forall r :: multiset(Where(rows, ps))[r] == if HoldsAll(ps, r) then multiset(rows)[r] else 0
    decreases |rows|
  {
    if rows != [] {
      WhereMultiplicity(rows[1..], ps);
      assert rows == [rows[0]] + rows[1..];
    }
  }

  /** The loop with a fixed list of predicates: narrow by one mask at a time. */
  function ApplyAll(rows: seq<Row>, ps: seq<Pred>): seq<Row>
    decreases |ps|
  {
    if ps == [] then rows else ApplyAll(Where(rows, [ps[0]]), ps[1..])
  }

  lemma HoldsAllCons(p: Pred, ps: seq<Pred>, r: Row)
    ensures HoldsAll([p] + ps, r) <==> Holds(p, r) && HoldsAll(ps, r)
  {
    if Holds(p, r) && HoldsAll(ps, r) {
      forall i | 0 <= i < |[p] + ps| ensures Holds(([p] + ps)[i], r) {
        if i > 0 {
          assert ([p] + ps)[i] == ps[i - 1];
        }
      }
    }
    if HoldsAll([p] + ps, r) {
      forall i | 0 <= i < |ps| ensures Holds(ps[i], r) {
        assert ([p] + ps)[i + 1] == ps[i];
      }
      assert ([p] + ps)[0] == p;
    }
  }

  /** A mask over every row that passes leaves the frame as it was. */
  lemma {:induction false} WhereAllPass(rows: seq<Row>, ps: seq<Pred>)
    requires forall r :: r in rows ==> HoldsAll(ps, r)
    ensures Where(rows, ps) == rows
    decreases |rows|
  {
    if rows != [] {
      assert rows[0] in rows;
      WhereAllPass(rows[1..], ps);
    }
  }

  /** No row can pass an empty mask: a filter that passes nothing leaves nothing. */
  lemma {:induction false} WhereNonePass(rows: seq<Row>, ps: seq<Pred>)
    requires forall r :: r in rows ==> !HoldsAll(ps, r)
    ensures Where(rows, ps) == []
    decreases |rows|
  {
    if rows != [] {
      assert rows[0] in rows;
      WhereNonePass(rows[1..], ps);
    }
  }

  /** Masking by `p` and then by `qs` is masking once by `p` and `qs` together. */
  lemma {:induction false} WhereThenWhere(rows: seq<Row>, p: Pred, qs: seq<Pred>)
    ensures Where(Where(rows, [p]), qs) == Where(rows, [p] + qs)
    decreases |rows|
  {
    if rows != [] {
      WhereThenWhere(rows[1..], p, qs);
      HoldsAllCons(p, [], rows[0]);
      HoldsAllCons(p, qs, rows[0]);
      assert [p] + [] == [p];
    }
  }

  /** The step-by-step loop keeps exactly the rows satisfying every predicate, in order. */
  lemma {:induction false} ApplyAllIsConjunction(rows: seq<Row>, ps: seq<Pred>)
    ensures ApplyAll(rows, ps) == Where(rows, ps)
    decreases |ps|
  {
    if ps == [] {
      WhereAllPass(rows, ps);
    } else {
      ApplyAllIsConjunction(Where(rows, [ps[0]]), ps[1..]);
      WhereThenWhere(rows, ps[0], ps[1..]);
      assert [ps[0]] + ps[1..] == ps;
    }
  }

  /** The conjunctive mask depends only on which predicates are in the list. */
  lemma {:induction false} WhereSamePreds(rows: seq<Row>, ps: seq<Pred>, qs: seq<Pred>)
    requires forall p :: p in ps <==> p in qs
    ensures Where(rows, ps) == Where(rows, qs)
    decreases |rows|
  {
    if rows != [] {
      WhereSamePreds(rows[1..], ps, qs);
      var r := rows[0];
      if HoldsAll(ps, r) {
        forall j | 0 <= j < |qs| ensures Holds(qs[j], r) {
          assert qs[j] in ps;
        }
      }
      if HoldsAll(qs, r) {
        forall j | 0 <= j < |ps| ensures Holds(ps[j], r) {
          assert ps[j] in qs;
        }
      }
    }
  }

  /** Applying the same predicates in any other order gives the same rows in the same order. */
  lemma OrderOfFiltersIrrelevant(rows: seq<Row>, ps: seq<Pred>, qs: seq<Pred>)
    requires multiset(ps) == multiset(qs)
    ensures ApplyAll(rows, ps) == ApplyAll(rows, qs)
  {
    forall p ensures p in ps <==> p in qs {
      assert p in ps <==> p in multiset(ps);
      assert p in qs <==> p in multiset(qs);
    }
    ApplyAllIsConjunction(rows, ps);
    ApplyAllIsConjunction(rows, qs);
    WhereSamePreds(rows, ps, qs);
  }

  /** The default multiselect (every distinct value of the column) keeps every row. */
  lemma DefaultSelectionKeepsAll(rows: seq<Row>, col: nat)
    requires HasColumn(rows, col)
    ensures Where(rows, [Member(col, Unique(rows, col))]) == rows
  {
    forall r | r in rows ensures HoldsAll([Member(col, Unique(rows, col))], r) {
      assert Holds(Member(col, Unique(rows, col)), r);
    }
    WhereAllPass(rows, [Member(col, Unique(rows, col))]);
  }

  /** The default slider or date range, the column's own minimum and maximum, keeps every row. */
  lemma DefaultRangeKeepsAll(rows: seq<Row>, col: nat)
    requires |rows| > 0 && ScalarColumn(rows, col)
    ensures Where(rows, [Range(col, MinScalar(rows, col), MaxScalar(rows, col))]) == rows
  {
    var p := Range(col, MinScalar(rows, col), MaxScalar(rows, col));
    forall r | r in rows ensures HoldsAll([p], r) {
      assert Holds(p, r);
    }
    WhereAllPass(rows, [p]);
  }

  /** An inverted numeric range matches nothing: it is not an error, and it fails closed. */
  lemma InvertedRangeKeepsNothing(rows: seq<Row>, col: nat, lo: int, hi: int)
    requires lo > hi
    ensures Where(rows, [Range(col, lo, hi)]) == []
  {
    forall r | r in rows ensures !HoldsAll([Range(col, lo, hi)], r) {
      assert !Holds(Range(col, lo, hi), r);
      assert [Range(col, lo, hi)][0] == Range(col, lo, hi);
    }
    WhereNonePass(rows, [Range(col, lo, hi)]);
  }
}
