/**
 * Cell values and column dtypes of the in-memory table.
 *
 * A cell is a number, a timezone-naive instant (an integer tick count, already
 * normalised) or a string. The dtype tags are the four the column-kind dispatch
 * in `filter_dataframe` inspects.
 */
module Cells {

  datatype Cell = Num(n: int) | Instant(ticks: int) | Str(s: string)

  datatype Dtype = CategoricalDtype | NumericDtype | DatetimeDtype | ObjectDtype

  /** The cells a column of the given dtype can hold; a categorical column holds any value. */
  predicate Fits(d: Dtype, c: Cell)
  {
    match d
    case CategoricalDtype => true
    case NumericDtype => c.Num?
    case DatetimeDtype => c.Instant?
    case ObjectDtype => c.Str?
  }

  /** Numbers and instants are the cells an inclusive range compares. */
  predicate IsScalar(c: Cell)
  {
    c.Num? || c.Instant?
  }

  function Scalar(c: Cell): int
    requires IsScalar(c)
  {
    if c.Num? then c.n else c.ticks
  }

  /** `Series.between(lo, hi)` on one cell: inclusive at both ends. */
  predicate Between(c: Cell, lo: int, hi: int)
  {
    IsScalar(c) && lo <= Scalar(c) <= hi
  }

  /** Ticks per day: instants are `datetime64[ns]` values, nanoseconds since the epoch. */
  const Day: int := 86_400_000_000_000

  /** The calendar day an instant falls on, as days since the epoch (`Timestamp.date()`). */
  function DayOf(t: int): int
  {
    t / Day
  }

  /** `pd.to_datetime` of a calendar day: the instant of its midnight. */
  function Midnight(d: int): int
  {
    d * Day
  }

  /** An instant lies in its day: from that day's midnight up to, not including, the next. */
  lemma DayBounds(t: int)
    ensures Midnight(DayOf(t)) <= t < Midnight(DayOf(t)) + Day
    ensures t == Midnight(DayOf(t)) <==> t % Day == 0
  {
    assert t == (t / Day) * Day + t % Day;
  }

  /** An instant is at or after midnight of day `d` exactly when its day is `d` or later. */
  lemma AfterMidnight(t: int, d: int)
    ensures Midnight(d) <= t <==> d <= DayOf(t)
  {
    DayBounds(t);
    var e := DayOf(t);
    if d <= e {
      assert Midnight(e) - Midnight(d) == (e - d) * Day;
    } else {
      assert Midnight(d) - Midnight(e + 1) == (d - e - 1) * Day;
    }
  }

  /** An instant is before the end of day `d` exactly when its day is `d` or earlier. */
  lemma BeforeDayEnd(t: int, d: int)
    ensures t <= Midnight(d) + Day - 1 <==> DayOf(t) <= d
  {
    AfterMidnight(t, d + 1);
    assert Midnight(d + 1) == Midnight(d) + Day;
  }

  /** `pattern` starts at offset `k` of `s`. */
  predicate OccursAt(pattern: string, s: string, k: nat)
  {
    k <= |s| && pattern <= s[k..]
  }

  /** Plain substring containment (the text filter without regular-expression semantics). */
  predicate Contains(s: string, pattern: string)
    decreases |s|
  {
    pattern <= s || (s != [] && Contains(s[1..], pattern))
  }

  lemma {:induction false} ContainsIffOccurs(s: string, pattern: string)
    ensures Contains(s, pattern) <==> exists k: nat :: OccursAt(pattern, s, k)
    decreases |s|
  {
    assert s[0..] == s;
    if pattern <= s {
      assert OccursAt(pattern, s, 0);
    } else if s == [] {
      forall k: nat | OccursAt(pattern, s, k) ensures false {
      }
    } else {
      ContainsIffOccurs(s[1..], pattern);
      if Contains(s[1..], pattern) {
        var k: nat :| OccursAt(pattern, s[1..], k);
        assert s[1..][k..] == s[k + 1..];
        assert OccursAt(pattern, s, k + 1);
      }
      forall k: nat | OccursAt(pattern, s, k) ensures Contains(s[1..], pattern) {
        assert k > 0;
        assert s[1..][k - 1..] == s[k..];
        assert OccursAt(pattern, s[1..], k - 1);
      }
    }
  }

  /** Lexicographic order on strings by code point, as Python compares `str`. */
  predicate StrLe(a: string, b: string)
    decreases |a|
  {
    a == [] || (b != [] && (a[0] < b[0] || (a[0] == b[0] && StrLe(a[1..], b[1..]))))
  }

  lemma {:induction false} StrLeRefl(a: string)
    ensures StrLe(a, a)
    decreases |a|
  {
    if a != [] {
      StrLeRefl(a[1..]);
    }
  }

  lemma {:induction false} StrLeTotal(a: string, b: string)
    ensures StrLe(a, b) || StrLe(b, a)
    decreases |a|
  {
    if a != [] && b != [] && a[0] == b[0] {
      StrLeTotal(a[1..], b[1..]);
    }
  }

  lemma {:induction false} StrLeTrans(a: string, b: string, c: string)
    requires StrLe(a, b) && StrLe(b, c)
    ensures StrLe(a, c)
    decreases |a|
  {
    if a != [] && a[0] == b[0] && b[0] == c[0] {
      StrLeTrans(a[1..], b[1..], c[1..]);
    }
  }

  lemma {:induction false} StrLeAntisym(a: string, b: string)
    requires StrLe(a, b) && StrLe(b, a)
    ensures a == b
    decreases |a|
  {
    if a != [] {
      StrLeAntisym(a[1..], b[1..]);
      assert a == [a[0]] + a[1..] && b == [b[0]] + b[1..];
    }
  }

  function Rank(c: Cell): nat
  {
    match c
    case Num(_) => 0
    case Instant(_) => 1
    case Str(_) => 2
  }

  /** The order the sort stage uses on sort-key cells: by value within one kind of cell. */
  predicate CellLe(a: Cell, b: Cell)
  {
    match (a, b)
    case (Num(x), Num(y)) => x <= y
    case (Instant(x), Instant(y)) => x <= y
    case (Str(x), Str(y)) => StrLe(x, y)
    case _ => Rank(a) < Rank(b)
  }

  lemma CellLeRefl(a: Cell)
    ensures CellLe(a, a)
  {
    if a.Str? {
      StrLeRefl(a.s);
    }
  }

  lemma CellLeTotal(a: Cell, b: Cell)
    ensures CellLe(a, b) || CellLe(b, a)
  {
    if a.Str? && b.Str? {
      StrLeTotal(a.s, b.s);
    }
  }

  lemma CellLeTrans(a: Cell, b: Cell, c: Cell)
    requires CellLe(a, b) && CellLe(b, c)
    ensures CellLe(a, c)
  {
    if a.Str? && b.Str? && c.Str? {
      StrLeTrans(a.s, b.s, c.s);
    }
  }

  lemma CellLeAntisym(a: Cell, b: Cell)
    requires CellLe(a, b) && CellLe(b, a)
    ensures a == b
  {
    if a.Str? && b.Str? {
      StrLeAntisym(a.s, b.s);
    }
  }
}
