/** Sequence facts shared by the filter pipeline and the paginator. */
module Seqs {

  /** `xs` is obtained from `ys` by deleting elements, keeping the order of the rest. */
  predicate Sub<T(==)>(xs: seq<T>, ys: seq<T>)
    decreases |ys|
  {
    if xs == [] then true
    else if ys == [] then false
    else (xs[0] == ys[0] && Sub(xs[1..], ys[1..])) || Sub(xs, ys[1..])
  }

  /** Every element of a subsequence is an element of the sequence it was taken from. */
  lemma {:induction false} SubMembers<T>(xs: seq<T>, ys: seq<T>)
    requires Sub(xs, ys)
    ensures forall x :: x in xs ==> x in ys
  {
    if xs != [] && ys != [] {
      if xs[0] == ys[0] && Sub(xs[1..], ys[1..]) {
        SubMembers(xs[1..], ys[1..]);
        forall x | x in xs ensures x in ys {
          if x != xs[0] {
            assert x in xs[1..];
          }
        }
      } else {
        SubMembers(xs, ys[1..]);
      }
    }
  }

  /** The pages of a split, concatenated in order. */
  function Flatten<T>(pages: seq<seq<T>>): seq<T>
  {
    if pages == [] then [] else pages[0] + Flatten(pages[1..])
  }

  lemma {:induction false} FlattenAppend<T>(a: seq<seq<T>>, b: seq<seq<T>>)
    ensures Flatten(a + b) == Flatten(a) + Flatten(b)
  {
    if a == [] {
      assert a + b == b;
    } else {
      assert (a + b)[1..] == a[1..] + b;
      FlattenAppend(a[1..], b);
    }
  }
}
