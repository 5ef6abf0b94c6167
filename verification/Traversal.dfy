/** Checking a list item by item, stopping at the first failure (`?` in a loop). */
module Traversal {
  import opened Types

  /** The results of all items in order, or the error of the first that fails. */
  function Traverse<T, U>(check: T -> Result<U>, items: seq<T>): Result<seq<U>> {
    if |items| == 0 then Ok([])
    else
      match Traverse(check, items[..|items|-1])
      case Err(e) => Err(e)
      case Ok(done) =>
        match check(items[|items|-1])
        case Err(e) => Err(e)
        case Ok(u) => Ok(done + [u])
  }

  /** `items[k]` fails with `e` and nothing before it fails. */
  ghost predicate FirstFailure<T, U>(check: T -> Result<U>, items: seq<T>, k: nat, e: PocError) {
    && k < |items|
    && check(items[k]) == Err(e)
    && forall i :: 0 <= i < k ==> check(items[i]).Ok?
  }

  lemma {:induction false} TraverseOk<T, U>(check: T -> Result<U>, items: seq<T>)
    requires Traverse(check, items).Ok?
    ensures |Traverse(check, items).value| == |items|
    ensures forall i :: 0 <= i < |items| ==> check(items[i]) == Ok(Traverse(check, items).value[i])
  {
    if |items| == 0 {
    } else {
      var n := |items| - 1;
      TraverseOk(check, items[..n]);
      assert forall i :: 0 <= i < n ==> items[..n][i] == items[i];
    }
  }

  lemma {:induction false} TraverseErr<T, U>(check: T -> Result<U>, items: seq<T>) returns (k: nat)
    requires Traverse(check, items).Err?
    ensures FirstFailure(check, items, k, Traverse(check, items).error)
  {
    var n := |items| - 1;
    assert forall i :: 0 <= i < n ==> items[..n][i] == items[i];
    if Traverse(check, items[..n]).Err? {
      k := TraverseErr(check, items[..n]);
    } else {
      k := n;
      TraverseOk(check, items[..n]);
    }
  }

  /** Once a prefix fails, so does the whole list, with the same error. */
  lemma {:induction false} FailureStays<T, U>(check: T -> Result<U>, items: seq<T>, n: nat)
    requires n <= |items| && Traverse(check, items[..n]).Err?
    ensures Traverse(check, items) == Traverse(check, items[..n])
    decreases |items| - n
  {
    if n == |items| {
      assert items[..n] == items;
    } else {
      assert items[..n+1][..n] == items[..n];
      FailureStays(check, items, n + 1);
    }
  }

  /** One turn of the loop. */
  lemma NextItem<T, U>(check: T -> Result<U>, items: seq<T>, i: nat)
    requires i < |items| && Traverse(check, items[..i]).Ok?
    ensures match check(items[i])
      case Err(e) => Traverse(check, items) == Err(e)
      case Ok(u) => Traverse(check, items[..i+1]) == Ok(Traverse(check, items[..i]).value + [u])
  {
    assert items[..i+1][..i] == items[..i];
    if check(items[i]).Err? { FailureStays(check, items, i + 1); }
  }

  /** The loop: it stops at the first failure. */
  method TraverseInOrder<T, U>(check: T -> Result<U>, items: seq<T>) returns (r: Result<seq<U>>)
    ensures r == Traverse(check, items)
  {
    var done: seq<U> := [];
    for i := 0 to |items|
      invariant Traverse(check, items[..i]) == Ok(done)
    {
      NextItem(check, items, i);
      match check(items[i]) {
        case Err(e) => return Err(e);
        case Ok(u) => done := done + [u];
      }
    }
    assert items[..|items|] == items;
    r := Ok(done);
  }

  // ---------- collecting ----------

  /** What `f` yields on the first `n` items, in order, leaving out the items it yields nothing for. */
  function Collect<T, U>(f: T -> Option<U>, items: seq<T>, n: nat): seq<U>
    requires n <= |items|
  {
    if n == 0 then []
    else
      var earlier, last := Collect(f, items, n - 1), f(items[n-1]);
      if last.None? then earlier else earlier + [last.value]
  }

  /** The positions among the first `n` items that yielded. */
  function Positions<T, U>(f: T -> Option<U>, items: seq<T>, n: nat): seq<nat>
    requires n <= |items|
  {
    if n == 0 then []
    else
      var earlier := Positions(f, items, n - 1);
      if f(items[n-1]).None? then earlier else earlier + [n - 1]
  }

  /** They are increasing, and they are exactly the positions that yielded. */
  lemma {:induction false} PositionsAreYields<T, U>(f: T -> Option<U>, items: seq<T>, n: nat)
    requires n <= |items|
    ensures forall k :: k in Positions(f, items, n) <==> 0 <= k < n && f(items[k]).Some?
    ensures forall i, j :: 0 <= i < j < |Positions(f, items, n)| ==>
      Positions(f, items, n)[i] < Positions(f, items, n)[j]
  {
    if n == 0 {
    } else {
      PositionsAreYields(f, items, n - 1);
      var earlier := Positions(f, items, n - 1);
      forall i | 0 <= i < |earlier| ensures earlier[i] < n - 1 {
        assert earlier[i] in earlier;
      }
    }
  }

  /** What was collected is what `f` yields at those positions. */
  lemma {:induction false} CollectedAtPositions<T, U>(f: T -> Option<U>, items: seq<T>, n: nat, i: nat)
    requires n <= |items| && i < |Positions(f, items, n)|
    ensures |Collect(f, items, n)| == |Positions(f, items, n)|
    ensures Positions(f, items, n)[i] < n
    ensures f(items[Positions(f, items, n)[i]]) == Some(Collect(f, items, n)[i])
  {
    CollectedLength(f, items, n);
    CollectedLength(f, items, n - 1);
    if i < |Positions(f, items, n - 1)| {
      CollectedAtPositions(f, items, n - 1, i);
    }
  }

  lemma {:induction false} CollectedLength<T, U>(f: T -> Option<U>, items: seq<T>, n: nat)
    requires n <= |items|
    ensures |Collect(f, items, n)| == |Positions(f, items, n)|
  {
    if n == 0 {
    } else {
      CollectedLength(f, items, n - 1);
    }
  }

  lemma {:induction false} CollectPrefix<T, U>(f: T -> Option<U>, xs: seq<T>, ys: seq<T>, n: nat)
    requires n <= |xs|
    ensures Collect(f, xs + ys, n) == Collect(f, xs, n)
  {
    if n == 0 {
    } else {
      CollectPrefix(f, xs, ys, n - 1);
      assert (xs + ys)[n-1] == xs[n-1];
    }
  }

  lemma {:induction false} CollectSplits<T, U>(f: T -> Option<U>, xs: seq<T>, ys: seq<T>, n: nat)
    requires n <= |ys|
    ensures Collect(f, xs + ys, |xs| + n) == Collect(f, xs, |xs|) + Collect(f, ys, n)
  {
    if n == 0 {
      CollectPrefix(f, xs, ys, |xs|);
    } else {
      CollectSplits(f, xs, ys, n - 1);
      assert (xs + ys)[|xs| + n - 1] == ys[n-1];
    }
  }

  /** The first item from position `from` on satisfying `p`, if any. */
  function FindFirst<T>(p: T -> bool, items: seq<T>, from: nat): (r: Option<nat>)
    requires from <= |items|
    ensures r.Some? ==> from <= r.value < |items| && p(items[r.value])
    ensures r.Some? ==> forall i :: from <= i < r.value ==> !p(items[i])
    ensures r.None? ==> forall i :: from <= i < |items| ==> !p(items[i])
    decreases |items| - from
  {
    if from == |items| then None
    else if p(items[from]) then Some(from)
    else FindFirst(p, items, from + 1)
  }

  lemma FindFirstIs<T>(p: T -> bool, items: seq<T>, k: nat)
    requires k < |items| && p(items[k]) && forall i :: 0 <= i < k ==> !p(items[i])
    ensures FindFirst(p, items, 0) == Some(k)
  {
    var r := FindFirst(p, items, 0);
    assert !(r.value < k) && !(k < r.value);
  }

  lemma {:induction false} FindFirstIn<T>(p: T -> bool, xs: seq<T>, ys: seq<T>, from: nat)
    requires from <= |xs|
    ensures FindFirst(p, xs + ys, from) ==
      if FindFirst(p, xs, from).Some? then FindFirst(p, xs, from) else FindFirst(p, xs + ys, |xs|)
    decreases |xs| - from
  {
    if from == |xs| {
    } else {
      assert (xs + ys)[from] == xs[from];
      FindFirstIn(p, xs, ys, from + 1);
    }
  }

  lemma {:induction false} FindFirstAfter<T>(p: T -> bool, xs: seq<T>, ys: seq<T>, from: nat)
    requires from <= |ys|
    ensures FindFirst(p, xs + ys, |xs| + from) ==
      match FindFirst(p, ys, from) case Some(k) => Some(|xs| + k) case None => None
    decreases |ys| - from
  {
    if from == |ys| {
    } else {
      assert (xs + ys)[|xs| + from] == ys[from];
      FindFirstAfter(p, xs, ys, from + 1);
    }
  }

  /** The first item of a concatenation is the first part's, or else the second's. */
  lemma FindFirstSplits<T>(p: T -> bool, xs: seq<T>, ys: seq<T>)
    ensures var a, b := FindFirst(p, xs, 0), FindFirst(p, ys, 0);
      FindFirst(p, xs + ys, 0) == if a.Some? then a else if b.Some? then Some(|xs| + b.value) else None
  {
    FindFirstIn(p, xs, ys, 0);
    FindFirstAfter(p, xs, ys, 0);
  }
}
