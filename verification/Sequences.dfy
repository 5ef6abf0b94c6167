/** Cancellation, permutation and stable-sort facts used across modules. */
module Sequences {

  lemma Cancel<T>(p: seq<T>, u: seq<T>, w: seq<T>)
    requires p + u == p + w
    ensures u == w
  {
    assert (p + u)[|p|..] == u;
    assert (p + w)[|p|..] == w;
  }

  /** Equal concatenations with equally long heads have equal parts. */
  lemma Split<T>(p: seq<T>, u: seq<T>, q: seq<T>, w: seq<T>)
    requires |p| == |q| && p + u == q + w
    ensures p == q && u == w
  {
    assert p == (p + u)[..|p|] && q == (q + w)[..|q|];
    assert u == (p + u)[|p|..] && w == (q + w)[|q|..];
  }

  lemma Append<T>(done: seq<T>, piece: seq<T>, rest: seq<T>)
    ensures (done + piece) + rest == done + (piece + rest)
  {}

  // ---------- fields at their places ----------

  /** `field` stands at position `from`. */
  predicate At<T(==)>(p: seq<T>, from: nat, field: seq<T>) {
    from + |field| <= |p| && p[from..from+|field|] == field
  }

  lemma AtHead<T>(a: seq<T>, rest: seq<T>)
    ensures At(a + rest, 0, a)
  {
    assert (a + rest)[0..|a|] == a;
  }

  lemma AtTail<T>(a: seq<T>, rest: seq<T>, from: nat, field: seq<T>)
    requires At(rest, from, field)
    ensures At(a + rest, |a| + from, field)
  {
    assert (a + rest)[|a|+from..|a|+from+|field|] == rest[from..from+|field|];
  }

  // ---------- stable sort ----------

  ghost predicate TotalPreorder<T(!new)>(leq: (T, T) -> bool) {
    && (forall a, b :: leq(a, b) || leq(b, a))
    && (forall a, b, c :: leq(a, b) && leq(b, c) ==> leq(a, c))
  }

  ghost predicate Sorted<T>(xs: seq<T>, leq: (T, T) -> bool) {
    forall i, j :: 0 <= i < j < |xs| ==> leq(xs[i], xs[j])
  }

  predicate Ties<T>(a: T, b: T, leq: (T, T) -> bool) {
    leq(a, b) && leq(b, a)
  }

  /** Puts `x` before the first element it does not exceed. */
  function Insert<T>(x: T, xs: seq<T>, leq: (T, T) -> bool): seq<T> {
    if |xs| == 0 then [x]
    else if leq(x, xs[0]) then [x] + xs
    else [xs[0]] + Insert(x, xs[1..], leq)
  }

  /** Rust's stable `sort_by` / `sort_by_key` / `sort`. */
  function Sort<T>(xs: seq<T>, leq: (T, T) -> bool): seq<T> {
    if |xs| == 0 then [] else Insert(xs[0], Sort(xs[1..], leq), leq)
  }

  lemma {:induction false} InsertSorts<T(!new)>(x: T, xs: seq<T>, leq: (T, T) -> bool)
    requires TotalPreorder(leq) && Sorted(xs, leq)
    ensures Sorted(Insert(x, xs, leq), leq)
    ensures multiset(Insert(x, xs, leq)) == multiset(xs) + multiset{x}
  {
    if |xs| == 0 {
    } else if leq(x, xs[0]) {
    } else {
      InsertSorts(x, xs[1..], leq);
      var r := Insert(x, xs[1..], leq);
      assert xs == [xs[0]] + xs[1..];
      forall i | 0 <= i < |r| ensures leq(xs[0], r[i]) {
        assert r[i] in multiset(r);
        assert r[i] == x || r[i] in xs[1..];
      }
    }
  }

  lemma {:induction false} SortSorts<T(!new)>(xs: seq<T>, leq: (T, T) -> bool)
    requires TotalPreorder(leq)
    ensures Sorted(Sort(xs, leq), leq)
    ensures multiset(Sort(xs, leq)) == multiset(xs)
  {
    if |xs| == 0 {
    } else {
      SortSorts(xs[1..], leq);
      InsertSorts(xs[0], Sort(xs[1..], leq), leq);
      assert xs == [xs[0]] + xs[1..];
    }
  }

  lemma PermutationLength<T>(xs: seq<T>, ys: seq<T>)
    requires multiset(xs) == multiset(ys)
    ensures |xs| == |ys|
  {
    assert |xs| == |multiset(xs)| && |ys| == |multiset(ys)|;
  }

  function Without<T>(xs: seq<T>, i: nat): seq<T>
    requires i < |xs|
  {
    xs[..i] + xs[i+1..]
  }

  lemma RemoveAt<T>(xs: seq<T>, i: nat)
    requires i < |xs|
    ensures multiset(Without(xs, i)) == multiset(xs) - multiset{xs[i]}
  {
    assert xs == xs[..i] + [xs[i]] + xs[i+1..];
    assert multiset(xs) == multiset(xs[..i]) + multiset{xs[i]} + multiset(xs[i+1..]);
  }

  lemma BringToFront<T>(xs: seq<T>, i: nat)
    requires i < |xs|
    ensures multiset([xs[i]] + Without(xs, i)) == multiset(xs)
  {
    assert xs == xs[..i] + [xs[i]] + xs[i+1..];
    assert multiset([xs[i]] + Without(xs, i)) == multiset{xs[i]} + multiset(xs[..i]) + multiset(xs[i+1..]);
  }

  lemma PermutationMember<T>(xs: seq<T>, ys: seq<T>, i: nat) returns (j: nat)
    requires multiset(xs) == multiset(ys) && i < |xs|
    ensures j < |ys| && ys[j] == xs[i]
  {
    assert xs[i] in multiset(ys);
    j :| j < |ys| && ys[j] == xs[i];
  }

  function Map<T, U>(f: T -> U, xs: seq<T>): (r: seq<U>)
    ensures |r| == |xs| && forall i :: 0 <= i < |xs| ==> r[i] == f(xs[i])
  {
    seq(|xs|, i requires 0 <= i < |xs| => f(xs[i]))
  }

  lemma MapWithout<T, U>(f: T -> U, xs: seq<T>, j: nat)
    requires j < |xs|
    ensures Map(f, Without(xs, j)) == Without(Map(f, xs), j)
  {}

  lemma MapFront<T, U>(f: T -> U, xs: seq<T>, j: nat)
    requires j < |xs|
    ensures multiset([f(xs[j])] + Map(f, Without(xs, j))) == multiset(Map(f, xs))
  {
    MapWithout(f, xs, j);
    BringToFront(Map(f, xs), j);
  }

  lemma {:induction false} MapPermutes<T, U>(f: T -> U, xs: seq<T>, ys: seq<T>)
    requires multiset(xs) == multiset(ys)
    ensures multiset(Map(f, xs)) == multiset(Map(f, ys))
    decreases |xs|
  {
    PermutationLength(xs, ys);
    if |xs| == 0 {
    } else {
      var j := PermutationMember(xs, ys, 0);
      RemoveAt(xs, 0);
      RemoveAt(ys, j);
      MapPermutes(f, Without(xs, 0), Without(ys, j));
      MapFront(f, xs, 0);
      MapFront(f, ys, j);
      SameTail(f(xs[0]), Map(f, Without(xs, 0)), Map(f, Without(ys, j)));
    }
  }

  /** Equal images come from equal elements, from one list to the other. */
  ghost predicate Separates<T, U>(f: T -> U, xs: seq<T>, ys: seq<T>) {
    forall i, j :: 0 <= i < |xs| && 0 <= j < |ys| && f(xs[i]) == f(ys[j]) ==> xs[i] == ys[j]
  }

  lemma SeparatesWithout<T, U>(f: T -> U, xs: seq<T>, ys: seq<T>, j: nat)
    requires Separates(f, xs, ys) && |xs| > 0 && j < |ys|
    ensures Separates(f, Without(xs, 0), Without(ys, j))
  {
    forall a, b | 0 <= a < |xs| - 1 && 0 <= b < |ys| - 1 && f(Without(xs, 0)[a]) == f(Without(ys, j)[b])
      ensures Without(xs, 0)[a] == Without(ys, j)[b]
    {
      assert Without(xs, 0)[a] == xs[a+1];
      assert Without(ys, j)[b] == ys[if b < j then b else b + 1];
    }
  }

  /** Then lists with permuted images are permutations of each other. */
  lemma {:induction false} MapPermutesBack<T, U>(f: T -> U, xs: seq<T>, ys: seq<T>)
    requires Separates(f, xs, ys) && multiset(Map(f, xs)) == multiset(Map(f, ys))
    ensures multiset(xs) == multiset(ys)
    decreases |xs|
  {
    PermutationLength(Map(f, xs), Map(f, ys));
    if |xs| == 0 {
    } else {
      var j := PermutationMember(Map(f, xs), Map(f, ys), 0);
      assert xs[0] == ys[j];
      RemoveAt(Map(f, xs), 0);
      RemoveAt(Map(f, ys), j);
      MapWithout(f, xs, 0);
      MapWithout(f, ys, j);
      SeparatesWithout(f, xs, ys, j);
      MapPermutesBack(f, Without(xs, 0), Without(ys, j));
      RemoveAt(xs, 0);
      RemoveAt(ys, j);
      BringToFront(xs, 0);
      BringToFront(ys, j);
      SameTail(xs[0], Without(xs, 0), Without(ys, j));
    }
  }

  // ---------- stability ----------

  /** The elements tied with `k`, in order. */
  function Tied<T>(xs: seq<T>, k: T, leq: (T, T) -> bool): seq<T> {
    if |xs| == 0 then []
    else (if Ties(xs[0], k, leq) then [xs[0]] else []) + Tied(xs[1..], k, leq)
  }

  lemma {:induction false} InsertIsStable<T(!new)>(x: T, xs: seq<T>, k: T, leq: (T, T) -> bool)
    requires TotalPreorder(leq)
    ensures Tied(Insert(x, xs, leq), k, leq) == Tied([x] + xs, k, leq)
  {
    assert ([x] + xs)[1..] == xs;
    if |xs| == 0 || leq(x, xs[0]) {
    } else {
      InsertIsStable(x, xs[1..], k, leq);
      assert ([x] + xs[1..])[1..] == xs[1..];
      assert ([xs[0]] + Insert(x, xs[1..], leq))[1..] == Insert(x, xs[1..], leq);
    }
  }

  /** Sorting keeps the relative order of tied elements. */
  lemma {:induction false} SortIsStable<T(!new)>(xs: seq<T>, k: T, leq: (T, T) -> bool)
    requires TotalPreorder(leq)
    ensures Tied(Sort(xs, leq), k, leq) == Tied(xs, k, leq)
  {
    if |xs| == 0 {
    } else {
      SortIsStable(xs[1..], k, leq);
      var s := Sort(xs[1..], leq);
      InsertIsStable(xs[0], s, k, leq);
      assert ([xs[0]] + s)[1..] == s;
    }
  }

  // ---------- when is the sorted view independent of presentation order? ----------

  ghost predicate SameView<T, U>(xs: seq<T>, ys: seq<T>, view: T -> U) {
    |xs| == |ys| && forall i :: 0 <= i < |xs| ==> view(xs[i]) == view(ys[i])
  }

  ghost predicate TiesAgree<T, U>(xs: seq<T>, leq: (T, T) -> bool, view: T -> U) {
    forall i, j :: 0 <= i < |xs| && 0 <= j < |xs| && Ties(xs[i], xs[j], leq) ==> view(xs[i]) == view(xs[j])
  }

  lemma WithoutKeepsOrder<T, U>(b: seq<T>, j: nat, leq: (T, T) -> bool, view: T -> U)
    requires j < |b| && Sorted(b, leq) && TiesAgree(b, leq, view)
    ensures Sorted(Without(b, j), leq) && TiesAgree(Without(b, j), leq, view)
  {
    var rest := Without(b, j);
    assert forall i :: 0 <= i < |rest| ==> rest[i] == b[if i < j then i else i + 1];
  }

  /** Everything sorted before an element tied with the first one looks like it. */
  lemma FrontLooksAlike<T(!new), U>(b: seq<T>, j: nat, leq: (T, T) -> bool, view: T -> U, i: nat)
    requires TotalPreorder(leq) && Sorted(b, leq) && TiesAgree(b, leq, view)
    requires i <= j < |b| && leq(b[j], b[0])
    ensures view(b[i]) == view(b[j])
  {
    assert leq(b[0], b[0]) && leq(b[j], b[j]);
    assert leq(b[0], b[i]) && leq(b[i], b[j]);
    assert Ties(b[i], b[j], leq);
  }

  lemma MatchFirst<T(!new), U>(a: seq<T>, b: seq<T>, j: nat, leq: (T, T) -> bool, view: T -> U)
    requires TotalPreorder(leq) && Sorted(b, leq) && TiesAgree(b, leq, view)
    requires 0 < |a| == |b| && j < |b| && b[j] == a[0] && leq(b[j], b[0])
    requires SameView(a[1..], Without(b, j), view)
    ensures SameView(a, b, view)
  {
    forall i | 0 <= i < |a| ensures view(a[i]) == view(b[i]) {
      if i <= j { FrontLooksAlike(b, j, leq, view, i); }
      if 0 < i {
        assert view(a[1..][i-1]) == view(Without(b, j)[i-1]);
        if i - 1 < j { FrontLooksAlike(b, j, leq, view, i - 1); }
      }
    }
  }

  lemma LeastFirst<T(!new)>(a: seq<T>, b: seq<T>, leq: (T, T) -> bool) returns (j: nat)
    requires TotalPreorder(leq) && Sorted(a, leq) && |a| > 0 && multiset(a) == multiset(b)
    ensures j < |b| && b[j] == a[0] && leq(b[j], b[0])
  {
    PermutationLength(a, b);
    j := PermutationMember(a, b, 0);
    var back := PermutationMember(b, a, 0);
    assert leq(a[0], a[0]);
  }

  lemma {:induction false} SortedViewsAgree<T(!new), U>(a: seq<T>, b: seq<T>, leq: (T, T) -> bool, view: T -> U)
    requires TotalPreorder(leq) && Sorted(a, leq) && Sorted(b, leq)
    requires multiset(a) == multiset(b) && TiesAgree(b, leq, view)
    ensures SameView(a, b, view)
    decreases |a|
  {
    PermutationLength(a, b);
    if |a| == 0 {
    } else {
      var j := LeastFirst(a, b, leq);
      WithoutKeepsOrder(b, j, leq, view);
      RemoveAt(a, 0);
      RemoveAt(b, j);
      assert Without(a, 0) == a[1..];
      SortedViewsAgree(a[1..], Without(b, j), leq, view);
      MatchFirst(a, b, j, leq, view);
    }
  }

  lemma TiesAgreeOnPermutation<T, U>(xs: seq<T>, ys: seq<T>, leq: (T, T) -> bool, view: T -> U)
    requires multiset(xs) == multiset(ys) && TiesAgree(xs, leq, view)
    ensures TiesAgree(ys, leq, view)
  {
    forall i, j | 0 <= i < |ys| && 0 <= j < |ys| && Ties(ys[i], ys[j], leq)
      ensures view(ys[i]) == view(ys[j])
    {
      var i' := PermutationMember(ys, xs, i);
      var j' := PermutationMember(ys, xs, j);
    }
  }

  lemma SortedViewIgnoresOrder<T(!new), U>(xs: seq<T>, ys: seq<T>, leq: (T, T) -> bool, view: T -> U)
    requires TotalPreorder(leq) && multiset(xs) == multiset(ys) && TiesAgree(xs, leq, view)
    ensures SameView(Sort(xs, leq), Sort(ys, leq), view)
  {
    SortSorts(xs, leq);
    SortSorts(ys, leq);
    TiesAgreeOnPermutation(xs, Sort(ys, leq), leq, view);
    SortedViewsAgree(Sort(xs, leq), Sort(ys, leq), leq, view);
  }

  lemma {:induction false} TiedViews<T, U>(a: seq<T>, b: seq<T>, k: T, leq: (T, T) -> bool, view: T -> U)
    requires SameView(a, b, view)
    requires forall i :: 0 <= i < |a| ==> (Ties(a[i], k, leq) <==> Ties(b[i], k, leq))
    ensures SameView(Tied(a, k, leq), Tied(b, k, leq), view)
  {
    if |a| == 0 {
    } else {
      forall i | 0 <= i < |a[1..]| ensures view(a[1..][i]) == view(b[1..][i]) {
        assert a[1..][i] == a[i+1] && b[1..][i] == b[i+1];
      }
      forall i | 0 <= i < |a[1..]| ensures Ties(a[1..][i], k, leq) <==> Ties(b[1..][i], k, leq) {
        assert a[1..][i] == a[i+1] && b[1..][i] == b[i+1];
      }
      TiedViews(a[1..], b[1..], k, leq, view);
    }
  }

  lemma HeadsOfTied<T(!new)>(a: T, b: T, rest: seq<T>, leq: (T, T) -> bool)
    requires TotalPreorder(leq) && Ties(a, b, leq)
    ensures |Tied([a, b] + rest, a, leq)| > 0 && Tied([a, b] + rest, a, leq)[0] == a
    ensures |Tied([b, a] + rest, a, leq)| > 0 && Tied([b, a] + rest, a, leq)[0] == b
  {
    assert leq(a, a);
    assert ([a, b] + rest)[0] == a && ([b, a] + rest)[0] == b;
  }

  /** Presenting two tied elements in either order shows in the sorted view. */
  lemma TiedPairShowsOrder<T(!new), U>(a: T, b: T, rest: seq<T>, leq: (T, T) -> bool, view: T -> U)
    requires TotalPreorder(leq) && Ties(a, b, leq) && view(a) != view(b)
    requires forall x, y, k :: view(x) == view(y) ==> (Ties(x, k, leq) <==> Ties(y, k, leq))
    ensures !SameView(Sort([a, b] + rest, leq), Sort([b, a] + rest, leq), view)
  {
    var p, q := [a, b] + rest, [b, a] + rest;
    if SameView(Sort(p, leq), Sort(q, leq), view) {
      TiedViews(Sort(p, leq), Sort(q, leq), a, leq, view);
      SortIsStable(p, a, leq);
      SortIsStable(q, a, leq);
      HeadsOfTied(a, b, rest, leq);
      assert false;
    }
  }

  lemma PairFirst<T>(xs: seq<T>, i: nat, j: nat) returns (rest: seq<T>)
    requires i < j < |xs|
    ensures multiset([xs[i], xs[j]] + rest) == multiset(xs)
    ensures multiset([xs[j], xs[i]] + rest) == multiset(xs)
  {
    var most := Without(xs, j);
    rest := Without(most, i);
    BringToFront(xs, j);
    BringToFront(most, i);
    SameTail(xs[j], [most[i]] + rest, most);
    assert [xs[j], xs[i]] + rest == [xs[j]] + ([most[i]] + rest);
    SwapFront(xs[i], xs[j], rest);
  }

  lemma SameTail<T>(x: T, u: seq<T>, w: seq<T>)
    requires multiset(u) == multiset(w)
    ensures multiset([x] + u) == multiset([x] + w)
  {
    assert multiset([x] + u) == multiset{x} + multiset(u);
    assert multiset([x] + w) == multiset{x} + multiset(w);
  }

  lemma SwapFront<T>(a: T, b: T, rest: seq<T>)
    ensures multiset([a, b] + rest) == multiset([b, a] + rest)
  {
    assert multiset([a, b] + rest) == multiset{a, b} + multiset(rest);
    assert multiset([b, a] + rest) == multiset{a, b} + multiset(rest);
  }

  lemma SameViewThrough<T, U>(a: seq<T>, b: seq<T>, c: seq<T>, view: T -> U)
    requires SameView(a, c, view) && SameView(b, c, view)
    ensures SameView(a, b, view)
  {}

  lemma TiedPairBreaksIndependence<T(!new), U>(xs: seq<T>, leq: (T, T) -> bool, view: T -> U, i: nat, j: nat)
    returns (ys: seq<T>)
    requires TotalPreorder(leq)
    requires forall x, y, k :: view(x) == view(y) ==> (Ties(x, k, leq) <==> Ties(y, k, leq))
    requires i < j < |xs| && Ties(xs[i], xs[j], leq) && view(xs[i]) != view(xs[j])
    ensures multiset(ys) == multiset(xs) && !SameView(Sort(ys, leq), Sort(xs, leq), view)
  {
    var rest := PairFirst(xs, i, j);
    var p, q := [xs[i], xs[j]] + rest, [xs[j], xs[i]] + rest;
    TiedPairShowsOrder(xs[i], xs[j], rest, leq, view);
    ys := p;
    if SameView(Sort(p, leq), Sort(xs, leq), view) {
      ys := q;
      if SameView(Sort(q, leq), Sort(xs, leq), view) {
        SameViewThrough(Sort(p, leq), Sort(q, leq), Sort(xs, leq), view);
      }
    }
  }

  /** The order in which the elements are presented never shows in the sorted
      view exactly when tied elements look alike. The key is part of the view. */
  lemma OrderIndependentIffTiesAgree<T(!new), U>(xs: seq<T>, leq: (T, T) -> bool, view: T -> U)
    requires TotalPreorder(leq)
    requires forall x, y, k :: view(x) == view(y) ==> (Ties(x, k, leq) <==> Ties(y, k, leq))
    ensures (forall ys :: multiset(ys) == multiset(xs) ==> SameView(Sort(ys, leq), Sort(xs, leq), view))
       <==> TiesAgree(xs, leq, view)
  {
    if TiesAgree(xs, leq, view) {
      forall ys | multiset(ys) == multiset(xs) ensures SameView(Sort(ys, leq), Sort(xs, leq), view) {
        TiesAgreeOnPermutation(xs, ys, leq, view);
        SortedViewIgnoresOrder(ys, xs, leq, view);
      }
    } else {
      var i, j :| 0 <= i < |xs| && 0 <= j < |xs| && Ties(xs[i], xs[j], leq) && view(xs[i]) != view(xs[j]);
      var ys := TiedPairBreaksIndependence(xs, leq, view, if i < j then i else j, if i < j then j else i);
    }
  }
}
