/** Maps merged by keeping, under each key, the entry attested earliest, and
    the one already present on a tie (src/backing.rs, plain and signed sets). */
module OldestWins {
  import opened Types
  import opened Text

  // ---------- iteration in key order (`BTreeMap`) ----------

  lemma {:induction false} LeastKey(s: set<string>) returns (k: string)
    requires s != {}
    ensures k in s && forall x :: x in s ==> StrLeq(k, x)
  {
    StrOrder();
    k :| k in s;
    if s != {k} {
      var rest := s - {k};
      var m := LeastKey(rest);
      if !StrLeq(k, m) {
        assert forall x :: x in s ==> x == k || x in rest;
        k := m;
      } else {
        assert forall x :: x in s ==> x == k || x in rest;
      }
    }
  }

  predicate IsLeast(s: set<string>, k: string) {
    k in s && forall x :: x in s ==> StrLeq(k, x)
  }

  lemma OneLeastKey(s: set<string>)
    requires s != {}
    ensures exists k :: IsLeast(s, k)
    ensures forall a, b :: IsLeast(s, a) && IsLeast(s, b) ==> a == b
  {
    var k := LeastKey(s);
    assert IsLeast(s, k);
    forall a, b | IsLeast(s, a) && IsLeast(s, b) ensures a == b {
      StrAntisymmetric(a, b);
    }
  }

  function First(s: set<string>): (k: string)
    requires s != {}
    ensures k in s && forall x :: x in s ==> StrLeq(k, x)
  {
    OneLeastKey(s);
    var k :| k in s && IsLeast(s, k);
    k
  }

  /** The keys in increasing order, each once. */
  function InOrder(s: set<string>): (r: seq<string>)
    ensures |r| == |s|
    decreases |s|
  {
    if s == {} then []
    else
      var k := First(s);
      [k] + InOrder(s - {k})
  }

  /** Increasing, without repetition. */
  ghost predicate Increasing(keys: seq<string>) {
    forall i, j :: 0 <= i < j < |keys| ==> StrLeq(keys[i], keys[j]) && keys[i] != keys[j]
  }

  /** `keys` lists exactly the keys of `s`, increasing and without repetition. */
  ghost predicate Enumerates(keys: seq<string>, s: set<string>) {
    && (forall k :: k in keys <==> k in s)
    && Increasing(keys)
  }

  lemma LeastThenRest(k: string, rest: seq<string>, s: set<string>)
    requires k in s && forall x :: x in s ==> StrLeq(k, x)
    requires Enumerates(rest, s - {k})
    ensures Enumerates([k] + rest, s)
  {
    var keys := [k] + rest;
    forall i | 0 <= i < |rest| ensures StrLeq(k, rest[i]) && k != rest[i] {
      assert rest[i] in rest;
    }
    assert forall x :: x in keys <==> x == k || x in rest;
  }

  lemma {:induction false} InOrderEnumerates(s: set<string>)
    ensures Enumerates(InOrder(s), s)
    decreases |s|
  {
    if s == {} {
    } else {
      var k := First(s);
      InOrderEnumerates(s - {k});
      LeastThenRest(k, InOrder(s - {k}), s);
    }
  }

  /** Iterating a `BTreeMap`. */
  method OrderedKeys<V>(m: map<string, V>) returns (keys: seq<string>)
    ensures keys == InOrder(m.Keys) && Enumerates(keys, m.Keys)
  {
    InOrderEnumerates(m.Keys);
    keys := InOrder(m.Keys);
  }

  /** The entries under `keys`, in that order. */
  function Values<V>(m: map<string, V>, keys: seq<string>): (r: seq<V>)
    requires forall k :: k in keys ==> k in m
    ensures |r| == |keys| && forall i :: 0 <= i < |r| ==> r[i] == m[keys[i]]
  {
    seq(|keys|, i requires 0 <= i < |keys| => m[keys[i]])
  }

  /** The entries in key order (`BTreeMap::values`). */
  function InOrderValues<V>(m: map<string, V>): (r: seq<V>) {
    InOrderEnumerates(m.Keys);
    Values(m, InOrder(m.Keys))
  }

  // ---------- filtering the keys ----------

  /** Those of the first `n` keys that satisfy `p`, in that order. */
  function Kept(keys: seq<string>, p: string -> bool, n: nat): seq<string>
    requires n <= |keys|
  {
    if n == 0 then []
    else if p(keys[n-1]) then Kept(keys, p, n - 1) + [keys[n-1]]
    else Kept(keys, p, n - 1)
  }

  lemma {:induction false} KeptMembers(keys: seq<string>, p: string -> bool, n: nat)
    requires n <= |keys|
    ensures forall k :: k in Kept(keys, p, n) <==> k in keys[..n] && p(k)
  {
    if n == 0 {
    } else {
      KeptMembers(keys, p, n - 1);
      assert keys[..n] == keys[..n-1] + [keys[n-1]];
    }
  }

  lemma {:induction false} KeptIncreasing(keys: seq<string>, p: string -> bool, n: nat)
    requires n <= |keys| && Increasing(keys)
    ensures Increasing(Kept(keys, p, n))
  {
    if n == 0 {
    } else {
      KeptIncreasing(keys, p, n - 1);
      KeptMembers(keys, p, n - 1);
      var earlier := Kept(keys, p, n - 1);
      forall i | 0 <= i < |earlier| ensures StrLeq(earlier[i], keys[n-1]) && earlier[i] != keys[n-1] {
        assert earlier[i] in earlier;
        var x :| 0 <= x < n - 1 && keys[..n-1][x] == earlier[i];
        assert keys[x] == earlier[i];
      }
    }
  }

  /** The kept keys list exactly the members of the set that satisfy `p`. */
  lemma KeptEnumerates(keys: seq<string>, s: set<string>, p: string -> bool, kept: set<string>)
    requires Enumerates(keys, s) && forall k :: k in kept <==> k in s && p(k)
    ensures Enumerates(Kept(keys, p, |keys|), kept)
  {
    KeptMembers(keys, p, |keys|);
    KeptIncreasing(keys, p, |keys|);
    assert keys[..|keys|] == keys;
  }

  lemma {:induction false} KeptCounts(keys: seq<string>, p: string -> bool, n: nat)
    requires n <= |keys|
    ensures |Kept(keys, p, n)| + |Kept(keys, k => !p(k), n)| == n
  {
    if n == 0 {
    } else {
      KeptCounts(keys, p, n - 1);
    }
  }

  lemma {:induction false} EnumeratesCounts(keys: seq<string>, s: set<string>)
    requires Enumerates(keys, s)
    ensures |keys| == |s|
  {
    if |keys| == 0 {
      assert s == {};
    } else {
      var n := |keys| - 1;
      var rest := s - {keys[n]};
      assert keys[n] in keys;
      forall k ensures k in keys[..n] <==> k in rest {
        assert keys == keys[..n] + [keys[n]];
        if k in keys[..n] {
          var i :| 0 <= i < n && keys[i] == k;
        }
      }
      EnumeratesCounts(keys[..n], rest);
    }
  }

  // ---------- the rule ----------

  function Put<V>(m: map<string, V>, k: string, v: V, at: V -> U64): map<string, V> {
    if k in m && at(m[k]) <= at(v) then m else m[k := v]
  }

  /** The older of two entries, the first on a tie. */
  function Older<V>(x: V, y: V, at: V -> U64): V {
    if at(x) <= at(y) then x else y
  }

  /** Key by key: the only entry, or the older of the two. */
  function Merge<V>(a: map<string, V>, b: map<string, V>, at: V -> U64): (r: map<string, V>)
    ensures r.Keys == a.Keys + b.Keys
  {
    map k | k in a.Keys + b.Keys ::
      if k !in b then a[k] else if k !in a then b[k] else Older(a[k], b[k], at)
  }

  /** Putting the entries in order, each under its own id. */
  function PutAll<V>(m: map<string, V>, es: seq<V>, id: V -> string, at: V -> U64): map<string, V> {
    if |es| == 0 then m
    else Put(PutAll(m, es[..|es|-1], id, at), id(es[|es|-1]), es[|es|-1], at)
  }

  /** The map the entries build from nothing. */
  function Gathered<V>(es: seq<V>, id: V -> string, at: V -> U64): map<string, V> {
    PutAll(map[], es, id, at)
  }

  /** `m` as inserting its entries in key order rebuilds it. */
  function Rekeyed<V>(m: map<string, V>, id: V -> string, at: V -> U64): map<string, V> {
    Gathered(InOrderValues(m), id, at)
  }

  /** Every entry sits under its own id. */
  ghost predicate Keyed<V>(m: map<string, V>, id: V -> string) {
    forall k :: k in m ==> id(m[k]) == k
  }

  /** Merging keeps maps keyed. */
  lemma MergeStaysKeyed<V>(a: map<string, V>, b: map<string, V>, id: V -> string, at: V -> U64)
    requires Keyed(a, id) && Keyed(b, id)
    ensures Keyed(Merge(a, b, at), id)
  {}

  lemma PutMerges<V>(a: map<string, V>, b: map<string, V>, k: string, v: V, at: V -> U64)
    ensures Put(Merge(a, b, at), k, v, at) == Merge(a, Put(b, k, v, at), at)
  {}

  lemma NextPut<V>(m: map<string, V>, es: seq<V>, i: nat, id: V -> string, at: V -> U64)
    requires i < |es|
    ensures PutAll(m, es[..i+1], id, at) == Put(PutAll(m, es[..i], id, at), id(es[i]), es[i], at)
  {
    assert es[..i+1][..i] == es[..i];
  }

  /** Putting entries one by one merges the map they build. */
  lemma {:induction false} PutAllMerges<V>(m: map<string, V>, es: seq<V>, id: V -> string, at: V -> U64)
    ensures PutAll(m, es, id, at) == Merge(m, Gathered(es, id, at), at)
  {
    if |es| == 0 {
      assert Merge(m, map[], at) == m;
    } else {
      var n := |es| - 1;
      PutAllMerges(m, es[..n], id, at);
      PutMerges(m, Gathered(es[..n], id, at), id(es[n]), es[n], at);
    }
  }

  lemma {:induction false} GatheredIsKeyed<V>(es: seq<V>, id: V -> string, at: V -> U64)
    ensures Keyed(Gathered(es, id, at), id)
  {
    if |es| == 0 {
    } else {
      GatheredIsKeyed(es[..|es|-1], id, at);
    }
  }

  ghost predicate HasId<V>(es: seq<V>, id: V -> string, k: string) {
    exists i :: 0 <= i < |es| && id(es[i]) == k
  }

  lemma {:induction false} GatheredKeys<V>(es: seq<V>, id: V -> string, at: V -> U64, k: string)
    ensures k in Gathered(es, id, at) <==> HasId(es, id, k)
  {
    if |es| == 0 {
    } else {
      var n := |es| - 1;
      GatheredKeys(es[..n], id, at, k);
      assert forall i :: 0 <= i < n ==> es[..n][i] == es[i];
    }
  }

  /** Under each id the gathered map holds one of the entries with that id, and
      none of them is older. */
  lemma {:induction false} GatheredHoldsOldest<V>(es: seq<V>, id: V -> string, at: V -> U64, k: string) returns (i: nat)
    ensures k in Gathered(es, id, at) <==> HasId(es, id, k)
    ensures k in Gathered(es, id, at) ==> i < |es| && id(es[i]) == k && Gathered(es, id, at)[k] == es[i]
    ensures k in Gathered(es, id, at) ==>
      forall j :: 0 <= j < |es| && id(es[j]) == k ==> at(Gathered(es, id, at)[k]) <= at(es[j])
  {
    i := 0;
    if |es| == 0 {
    } else {
      var n := |es| - 1;
      var r := GatheredHoldsOldest(es[..n], id, at, k);
      GatheredKeys(es, id, at, k);
      assert forall j :: 0 <= j < n ==> es[..n][j] == es[j];
      i := if k in Gathered(es[..n], id, at) && (id(es[n]) != k || at(es[r]) <= at(es[n])) then r else n;
    }
  }

  ghost predicate DistinctIds<V>(es: seq<V>, id: V -> string) {
    forall i, j :: 0 <= i < j < |es| ==> id(es[i]) != id(es[j])
  }

  /** No entry is lost exactly when the ids are distinct. */
  lemma {:induction false} GatheredCounts<V>(es: seq<V>, id: V -> string, at: V -> U64)
    ensures |Gathered(es, id, at)| <= |es|
    ensures |Gathered(es, id, at)| == |es| <==> DistinctIds(es, id)
  {
    if |es| == 0 {
    } else {
      var n := |es| - 1;
      GatheredCounts(es[..n], id, at);
      GatheredKeys(es[..n], id, at, id(es[n]));
      OneMoreId(es, id);
    }
  }

  lemma OneMoreId<V>(es: seq<V>, id: V -> string)
    requires |es| > 0
    ensures var n := |es| - 1;
      DistinctIds(es, id) <==> DistinctIds(es[..n], id) && !HasId(es[..n], id, id(es[n]))
  {
    var n := |es| - 1;
    assert forall i :: 0 <= i < n ==> es[..n][i] == es[i];
  }

  lemma {:induction false} GatheredUnderKeys<V>(m: map<string, V>, keys: seq<string>, n: nat, id: V -> string,
                                                at: V -> U64)
    requires n <= |keys| && Keyed(m, id) && forall k :: k in keys ==> k in m
    requires forall i, j :: 0 <= i < j < |keys| ==> keys[i] != keys[j]
    ensures Gathered(Values(m, keys)[..n], id, at) == map k | k in m && k in keys[..n] :: m[k]
  {
    if n == 0 {
    } else {
      var vs := Values(m, keys);
      GatheredUnderKeys(m, keys, n - 1, id, at);
      assert vs[..n][..n-1] == vs[..n-1];
      assert keys[n-1] in keys;
      assert keys[..n] == keys[..n-1] + [keys[n-1]];
    }
  }

  /** Inserting a map's entries rebuilds it exactly when it is keyed. */
  lemma RekeyedIff<V>(m: map<string, V>, id: V -> string, at: V -> U64)
    ensures Rekeyed(m, id, at) == m <==> Keyed(m, id)
    ensures Keyed(Rekeyed(m, id, at), id)
  {
    InOrderEnumerates(m.Keys);
    GatheredIsKeyed(InOrderValues(m), id, at);
    if Keyed(m, id) {
      KeyedIsRebuilt(m, InOrder(m.Keys), id, at);
    }
  }

  /** Whatever order its entries are inserted in. */
  lemma KeyedIsRebuilt<V>(m: map<string, V>, keys: seq<string>, id: V -> string, at: V -> U64)
    requires Keyed(m, id) && forall k :: k in keys <==> k in m
    requires forall i, j :: 0 <= i < j < |keys| ==> keys[i] != keys[j]
    ensures Gathered(Values(m, keys), id, at) == m
  {
    GatheredUnderKeys(m, keys, |keys|, id, at);
    assert Values(m, keys)[..|keys|] == Values(m, keys) && keys[..|keys|] == keys;
  }

  lemma {:induction false} PutAllInTurn<V>(m: map<string, V>, xs: seq<V>, ys: seq<V>, id: V -> string, at: V -> U64)
    ensures PutAll(m, xs + ys, id, at) == PutAll(PutAll(m, xs, id, at), ys, id, at)
  {
    if |ys| == 0 {
      assert xs + ys == xs;
    } else {
      var n := |ys| - 1;
      PutAllInTurn(m, xs, ys[..n], id, at);
      assert (xs + ys)[..|xs| + n] == xs + ys[..n] && (xs + ys)[|xs| + n] == ys[n];
    }
  }

  /** Building from a concatenated list is the merge of building from its parts. */
  lemma GatheredSplits<V>(xs: seq<V>, ys: seq<V>, id: V -> string, at: V -> U64)
    ensures Gathered(xs + ys, id, at) == Merge(Gathered(xs, id, at), Gathered(ys, id, at), at)
  {
    PutAllInTurn(map[], xs, ys, id, at);
    PutAllMerges(Gathered(xs, id, at), ys, id, at);
  }

  lemma MergeAssociates<V>(a: map<string, V>, b: map<string, V>, c: map<string, V>, at: V -> U64)
    ensures Merge(Merge(a, b, at), c, at) == Merge(a, Merge(b, c, at), at)
  {}

  lemma MergeIdempotent<V>(a: map<string, V>, at: V -> U64)
    ensures Merge(a, a, at) == a
  {}

  /** Merging commutes exactly when entries tied under a key are equal. */
  lemma MergeCommutesIff<V>(a: map<string, V>, b: map<string, V>, at: V -> U64)
    ensures Merge(a, b, at) == Merge(b, a, at)
       <==> forall k :: k in a && k in b && at(a[k]) == at(b[k]) ==> a[k] == b[k]
  {
    if Merge(a, b, at) == Merge(b, a, at) {
      forall k | k in a && k in b && at(a[k]) == at(b[k]) ensures a[k] == b[k] {
        assert Merge(a, b, at)[k] == a[k] && Merge(b, a, at)[k] == b[k];
      }
    }
  }

  // ---------- merging many ----------

  function MergeMany<V>(maps: seq<map<string, V>>, at: V -> U64): map<string, V> {
    if |maps| == 0 then map[] else Merge(maps[0], MergeMany(maps[1..], at), at)
  }

  lemma {:induction false} MergeManySplits<V>(xs: seq<map<string, V>>, ys: seq<map<string, V>>, at: V -> U64)
    ensures MergeMany(xs + ys, at) == Merge(MergeMany(xs, at), MergeMany(ys, at), at)
  {
    if |xs| == 0 {
      assert xs + ys == ys;
      assert Merge(map[], MergeMany(ys, at), at) == MergeMany(ys, at);
    } else {
      MergeManySplits(xs[1..], ys, at);
      assert (xs + ys)[0] == xs[0] && (xs + ys)[1..] == xs[1..] + ys;
      MergeAssociates(xs[0], MergeMany(xs[1..], at), MergeMany(ys, at), at);
    }
  }

  /** `maps[i]` is the first to carry `k` with the earliest attestation. */
  ghost predicate FirstOldest<V>(maps: seq<map<string, V>>, k: string, i: nat, at: V -> U64) {
    && i < |maps| && k in maps[i]
    && (forall j :: 0 <= j < |maps| && k in maps[j] ==> at(maps[i][k]) <= at(maps[j][k]))
    && (forall j :: 0 <= j < i && k in maps[j] ==> at(maps[i][k]) < at(maps[j][k]))
  }

  /** Under each key the merge holds the entry of the first map carrying the
      earliest attestation, and it has no other keys. */
  lemma {:induction false} MergeManyKeepsFirstOldest<V>(maps: seq<map<string, V>>, k: string, at: V -> U64)
    returns (i: nat)
    ensures k in MergeMany(maps, at) <==> exists j :: 0 <= j < |maps| && k in maps[j]
    ensures k in MergeMany(maps, at) ==> FirstOldest(maps, k, i, at) && MergeMany(maps, at)[k] == maps[i][k]
  {
    i := 0;
    if |maps| == 0 {
    } else {
      var rest := maps[1..];
      assert forall j :: 0 <= j < |rest| ==> rest[j] == maps[j+1];
      var r := MergeManyKeepsFirstOldest(rest, k, at);
      if k in MergeMany(rest, at) && (k !in maps[0] || at(rest[r][k]) < at(maps[0][k])) {
        i := r + 1;
      }
    }
  }
}
