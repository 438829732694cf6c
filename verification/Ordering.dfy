/** Insertion into a strictly ordered sequence, for the queries and results that are sorted. */
module Ordering {

  ghost predicate Transitive<T(!new)>(less: (T, T) -> bool) {
    forall a, b, c :: less(a, b) && less(b, c) ==> less(a, c)
  }

  predicate Ordered<T>(less: (T, T) -> bool, xs: seq<T>) {
    forall i, j :: 0 <= i < j < |xs| ==> less(xs[i], xs[j])
  }

  function Insert<T(!new)>(less: (T, T) -> bool, x: T, xs: seq<T>): (ys: seq<T>)
    ensures |ys| == |xs| + 1
    ensures forall y :: y in ys <==> y == x || y in xs
  {
    if xs == [] then [x]
    else if less(x, xs[0]) then [x] + xs
    else [xs[0]] + Insert(less, x, xs[1..])
  }

  lemma {:induction false} InsertKeepsOrder<T(!new)>(less: (T, T) -> bool, x: T, xs: seq<T>)
    requires Transitive(less) && Ordered(less, xs)
    requires forall y :: y in xs ==> less(x, y) || less(y, x)
    ensures Ordered(less, Insert(less, x, xs))
  {
    if xs != [] && !less(x, xs[0]) {
      InsertKeepsOrder(less, x, xs[1..]);
      var ys := Insert(less, x, xs[1..]);
      forall j | 0 <= j < |ys| ensures less(xs[0], ys[j]) {
        assert ys[j] == x || ys[j] in xs[1..];
      }
    }
  }
}
