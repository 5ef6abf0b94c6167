/** Keyed registries where an accepted item replaces the one under its key and
    a refused item changes nothing. */
module Registries {
  import opened Types

  /** The registry after one presentation; `None` is a refusal. */
  function Put<K, V>(held: map<K, V>, item: Option<(K, V)>): map<K, V> {
    if item.Some? then held[item.value.0 := item.value.1] else held
  }

  /** The registry after a run, initially empty. */
  function Fold<K, V>(items: seq<Option<(K, V)>>): map<K, V> {
    if |items| == 0 then map[] else Put(Fold(items[..|items|-1]), items[|items|-1])
  }

  predicate AcceptedUnder<K(==), V>(item: Option<(K, V)>, key: K) {
    item.Some? && item.value.0 == key
  }

  /** `items[k]` is the last one accepted under `key`. */
  ghost predicate LastAccepted<K, V>(items: seq<Option<(K, V)>>, k: nat, key: K, v: V) {
    && k < |items| && items[k] == Some((key, v))
    && forall j :: k < j < |items| ==> !AcceptedUnder(items[j], key)
  }

  /** A key is held exactly when something was accepted under it, and the last
      accepted item is what is held. */
  lemma {:induction false} FoldHoldsLastAccepted<K, V>(items: seq<Option<(K, V)>>, key: K)
    ensures key in Fold(items) <==> exists k :: 0 <= k < |items| && AcceptedUnder(items[k], key)
    ensures key in Fold(items) ==> exists k :: LastAccepted(items, k, key, Fold(items)[key])
  {
    if |items| == 0 {
    } else {
      var n := |items| - 1;
      FoldHoldsLastAccepted(items[..n], key);
      assert forall i :: 0 <= i < n ==> items[..n][i] == items[i];
      if AcceptedUnder(items[n], key) {
        assert LastAccepted(items, n, key, Fold(items)[key]);
      } else if key in Fold(items[..n]) {
        var k :| LastAccepted(items[..n], k, key, Fold(items[..n])[key]);
        assert LastAccepted(items, k, key, Fold(items)[key]);
      }
    }
  }

  // ---------- a single slot ----------

  function OrElse<V>(item: Option<V>, held: Option<V>): Option<V> {
    if item.Some? then item else held
  }

  /** The slot after a run, initially empty: the last accepted item. */
  function Latest<V>(items: seq<Option<V>>): Option<V> {
    if |items| == 0 then None else OrElse(items[|items|-1], Latest(items[..|items|-1]))
  }

  lemma {:induction false} LatestSomeIff<V>(items: seq<Option<V>>)
    ensures Latest(items).Some? <==> exists k :: 0 <= k < |items| && items[k].Some?
  {
    if |items| == 0 {
    } else {
      var n := |items| - 1;
      LatestSomeIff(items[..n]);
      assert forall j :: 0 <= j < n ==> items[..n][j] == items[j];
    }
  }

  lemma {:induction false} LatestIsLast<V>(items: seq<Option<V>>) returns (k: nat)
    requires Latest(items).Some?
    ensures k < |items| && items[k] == Latest(items)
    ensures forall j :: k < j < |items| ==> items[j].None?
  {
    var n := |items| - 1;
    if items[n].Some? {
      k := n;
    } else {
      k := LatestIsLast(items[..n]);
      assert forall j :: k < j < n ==> items[..n][j] == items[j];
    }
  }
}
