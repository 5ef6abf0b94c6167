/** Least and greatest elements as bounds. */
module Bounds {
  import opened Types

  predicate NoneBefore(ends: seq<int>, h: int) {
    forall x :: x in ends ==> h <= x
  }

  predicate NoneAfter(starts: seq<int>, h: int) {
    forall x :: x in starts ==> x <= h
  }

  function Least(xs: seq<int>): int
    requires |xs| > 0
  {
    if |xs| == 1 then xs[0] else Min(xs[0], Least(xs[1..]))
  }

  function Greatest(xs: seq<int>): int
    requires |xs| > 0
  {
    if |xs| == 1 then xs[0] else Max(xs[0], Greatest(xs[1..]))
  }

  lemma {:induction false} LeastBounds(xs: seq<int>, h: int)
    requires |xs| > 0
    ensures Least(xs) in xs
    ensures h <= Least(xs) <==> NoneBefore(xs, h)
  {
    if |xs| == 1 {
    } else {
      LeastBounds(xs[1..], h);
      assert xs == [xs[0]] + xs[1..];
      assert forall x :: x in xs <==> x == xs[0] || x in xs[1..];
    }
  }

  lemma {:induction false} GreatestBounds(xs: seq<int>, h: int)
    requires |xs| > 0
    ensures Greatest(xs) in xs
    ensures Greatest(xs) <= h <==> NoneAfter(xs, h)
  {
    if |xs| == 1 {
    } else {
      GreatestBounds(xs[1..], h);
      assert xs == [xs[0]] + xs[1..];
      assert forall x :: x in xs <==> x == xs[0] || x in xs[1..];
    }
  }
}
