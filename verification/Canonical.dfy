/** The canonical printer (src/canonical.rs): object members sorted by key at
    every depth. Two documents have the same canonical text exactly when they
    are the same document up to member order. */
module Canonical {
  import opened Types
  import opened Sequences
  import opened Text
  import opened Json
  import opened Readability

  predicate KeyLeq(a: Member, b: Member) {
    StrLeq(a.key, b.key)
  }

  lemma KeyOrder()
    ensures TotalPreorder(KeyLeq)
  {
    StrOrder();
  }

  /** `v` with the members of every object sorted by key. */
  function Normal(v: Value): Value
    decreases v, 0
  {
    match v
    case Array(items) => Array(NormalItems(items))
    case Object(ms) => Object(Sort(NormalMembers(ms), KeyLeq))
    case _ => v
  }

  function NormalItems(items: seq<Value>): (r: seq<Value>)
    ensures |r| == |items|
    ensures forall i :: 0 <= i < |r| ==> r[i] == Normal(items[i])
    decreases items, 1
  {
    if |items| == 0 then [] else [Normal(items[0])] + NormalItems(items[1..])
  }

  function NormalMembers(ms: seq<Member>): (r: seq<Member>)
    ensures |r| == |ms|
    ensures forall i :: 0 <= i < |r| ==> r[i] == Member(ms[i].key, Normal(ms[i].value))
    decreases ms, 1
  {
    if |ms| == 0 then []
    else [Member(ms[0].key, Normal(ms[0].value))] + NormalMembers(ms[1..])
  }

  function CanonicalJson(v: Value): string {
    Print(Normal(v))
  }

  /** Equality up to the order of object members, at every depth. */
  ghost predicate Same(a: Value, b: Value)
    decreases a
  {
    match a
    case Array(xs) =>
      && b.Array? && |xs| == |b.items|
      && forall i :: 0 <= i < |xs| ==> Same(xs[i], b.items[i])
    case Object(ms) =>
      && b.Object? && |ms| == |b.members|
      && (forall i :: 0 <= i < |ms| ==> HasKey(b.members, ms[i].key))
      && (forall i, j :: 0 <= i < |ms| && 0 <= j < |b.members| && ms[i].key == b.members[j].key
            ==> Same(ms[i].value, b.members[j].value))
    case _ => a == b
  }

  predicate HasKey(ms: seq<Member>, k: string) {
    exists j :: 0 <= j < |ms| && ms[j].key == k
  }

  // ---------- sorting members ----------

  /** With distinct keys, sorting depends only on the members, not on their order. */
  lemma SortedMembersUnique(xs: seq<Member>, ys: seq<Member>)
    requires DistinctKeys(xs) && multiset(xs) == multiset(ys)
    ensures Sort(xs, KeyLeq) == Sort(ys, KeyLeq)
  {
    KeyOrder();
    var view := (m: Member) => m;
    forall i, j | 0 <= i < |xs| && 0 <= j < |xs| && Ties(xs[i], xs[j], KeyLeq)
      ensures view(xs[i]) == view(xs[j])
    {
      StrAntisymmetric(xs[i].key, xs[j].key);
      assert !(i < j) && !(j < i);
    }
    SortedViewIgnoresOrder(xs, ys, KeyLeq, view);
    var a, b := Sort(xs, KeyLeq), Sort(ys, KeyLeq);
    assert forall i :: 0 <= i < |a| ==> a[i] == view(a[i]) == view(b[i]) == b[i];
  }

  lemma SortedMembersPermute(xs: seq<Member>)
    ensures multiset(Sort(xs, KeyLeq)) == multiset(xs)
  {
    KeyOrder();
    SortSorts(xs, KeyLeq);
  }

  /** Members with distinct keys, all found in the other list of the same length, permute it. */
  lemma {:induction false} IncludedPermutes(xs: seq<Member>, ys: seq<Member>)
    requires DistinctKeys(xs) && |xs| == |ys|
    requires forall i :: 0 <= i < |xs| ==> xs[i] in ys
    ensures multiset(xs) == multiset(ys)
    decreases |xs|
  {
    if |xs| == 0 {
    } else {
      var j :| 0 <= j < |ys| && ys[j] == xs[0];
      var rest := Without(ys, j);
      forall i | 0 <= i < |xs[1..]| ensures xs[1..][i] in rest {
        var k :| 0 <= k < |ys| && ys[k] == xs[i+1];
        assert k != j;
        assert rest[if k < j then k else k - 1] == ys[k];
      }
      IncludedPermutes(xs[1..], rest);
      BringToFront(ys, j);
      assert [xs[0]] + xs[1..] == xs;
      SameTail(xs[0], xs[1..], rest);
    }
  }

  // ---------- normal forms decide sameness ----------

  ghost predicate ValuesAgree(ms: seq<Member>, ns: seq<Member>) {
    forall i, j :: 0 <= i < |ms| && 0 <= j < |ns| && ms[i].key == ns[j].key ==>
                     Normal(ms[i].value) == Normal(ns[j].value)
  }

  lemma SameMembersPermute(ms: seq<Member>, ns: seq<Member>)
    requires DistinctKeys(ms) && |ms| == |ns|
    requires forall i :: 0 <= i < |ms| ==> HasKey(ns, ms[i].key)
    requires ValuesAgree(ms, ns)
    ensures Sort(NormalMembers(ms), KeyLeq) == Sort(NormalMembers(ns), KeyLeq)
  {
    var xs, ys := NormalMembers(ms), NormalMembers(ns);
    forall i | 0 <= i < |xs| ensures xs[i] in ys {
      assert HasKey(ns, ms[i].key);
      var j :| 0 <= j < |ns| && ns[j].key == ms[i].key;
      assert ys[j] == xs[i];
    }
    IncludedPermutes(xs, ys);
    SortedMembersUnique(xs, ys);
  }

  lemma SortedMembersShared(xs: seq<Member>, ys: seq<Member>)
    requires Sort(xs, KeyLeq) == Sort(ys, KeyLeq)
    ensures |xs| == |ys|
    ensures forall x :: x in xs ==> x in ys
  {
    SortedMembersPermute(xs);
    SortedMembersPermute(ys);
    PermutationLength(xs, ys);
    forall x | x in xs ensures x in ys {
      assert x in multiset(ys);
    }
  }

  lemma SortedMembersShareKeys(ms: seq<Member>, ns: seq<Member>)
    requires DistinctKeys(ns)
    requires Sort(NormalMembers(ms), KeyLeq) == Sort(NormalMembers(ns), KeyLeq)
    ensures |ms| == |ns|
    ensures forall i :: 0 <= i < |ms| ==> HasKey(ns, ms[i].key)
    ensures ValuesAgree(ms, ns)
  {
    var xs, ys := NormalMembers(ms), NormalMembers(ns);
    SortedMembersShared(xs, ys);
    forall i | 0 <= i < |ms|
      ensures HasKey(ns, ms[i].key)
      ensures forall j :: 0 <= j < |ns| && ms[i].key == ns[j].key ==> Normal(ms[i].value) == Normal(ns[j].value)
    {
      assert xs[i] in ys;
      var k :| 0 <= k < |ys| && ys[k] == xs[i];
      assert ns[k].key == ms[i].key;
      assert forall j :: 0 <= j < |ns| && j != k ==> ns[j].key != ns[k].key;
    }
  }

  lemma {:induction false} NormalDecidesSame(a: Value, b: Value)
    requires WellFormed(a) && WellFormed(b)
    ensures Normal(a) == Normal(b) <==> Same(a, b)
    decreases a
  {
    match a
    case Array(xs) =>
      if b.Array? && |xs| == |b.items| {
        forall i | 0 <= i < |xs| ensures Normal(xs[i]) == Normal(b.items[i]) <==> Same(xs[i], b.items[i]) {
          NormalDecidesSame(xs[i], b.items[i]);
        }
        if Same(a, b) {
          assert NormalItems(xs) == NormalItems(b.items);
        }
        assert Normal(a) == Normal(b) ==> forall i :: 0 <= i < |xs| ==> NormalItems(xs)[i] == NormalItems(b.items)[i];
      }
    case Object(ms) =>
      if b.Object? {
        ObjectNormalDecidesSame(a, b);
      }
    case _ =>
  }

  lemma {:induction false} ObjectNormalDecidesSame(a: Value, b: Value)
    requires WellFormed(a) && WellFormed(b) && a.Object? && b.Object?
    ensures Normal(a) == Normal(b) <==> Same(a, b)
    decreases a, 0
  {
    var ms, ns := a.members, b.members;
    forall i, j | 0 <= i < |ms| && 0 <= j < |ns|
      ensures Normal(ms[i].value) == Normal(ns[j].value) <==> Same(ms[i].value, ns[j].value)
    {
      NormalDecidesSame(ms[i].value, ns[j].value);
    }
    if Normal(a) == Normal(b) {
      SortedMembersShareKeys(ms, ns);
    }
    if Same(a, b) {
      SameMembersPermute(ms, ns);
    }
  }

  /** Canonical texts agree exactly on documents equal up to member order. */
  lemma CanonicalJsonDecidesSame(a: Value, b: Value)
    requires WellFormed(a) && WellFormed(b)
    ensures CanonicalJson(a) == CanonicalJson(b) <==> Same(a, b)
  {
    NormalDecidesSame(a, b);
    if CanonicalJson(a) == CanonicalJson(b) {
      PrintInjective(Normal(a), Normal(b));
    }
  }

  /** Inserting an object's members in another order never changes its text. */
  lemma InsertionOrderNeverShows(ms: seq<Member>, ns: seq<Member>)
    requires DistinctKeys(ms) && multiset(ms) == multiset(ns)
    ensures CanonicalJson(Object(ms)) == CanonicalJson(Object(ns))
  {
    PermutationLength(ms, ns);
    forall i | 0 <= i < |ms| ensures HasKey(ns, ms[i].key) {
      var j := PermutationMember(ms, ns, i);
    }
    forall i, j | 0 <= i < |ms| && 0 <= j < |ns| && ms[i].key == ns[j].key
      ensures Normal(ms[i].value) == Normal(ns[j].value)
    {
      var k := PermutationMember(ns, ms, j);
      assert !(i < k) && !(k < i);
    }
    SameMembersPermute(ms, ns);
  }

  /** No text within an array or object can be split into values another way. */
  lemma ContinuationsAreCut(a: Value, b: Value, s: string, t: string)
    requires WellFormed(a) && WellFormed(b) && Stops(s) && Stops(t)
    requires CanonicalJson(a) + s == CanonicalJson(b) + t
    ensures Same(a, b) && s == t
  {
    PrintCut(Normal(a), Normal(b), s, t);
    NormalDecidesSame(a, b);
  }

  // ---------- what a reader finds ----------

  /** The member under `k` is `x`, up to member order inside it. */
  ghost predicate Holds(v: Value, k: string, x: Value) {
    v.Object? && exists j :: 0 <= j < |v.members| && v.members[j].key == k && Same(x, v.members[j].value)
  }

  lemma SameHoldsMembers(ms: seq<Member>, v: Value)
    requires Same(Object(ms), v)
    ensures forall i :: 0 <= i < |ms| ==> Holds(v, ms[i].key, ms[i].value)
  {
    forall i | 0 <= i < |ms| ensures Holds(v, ms[i].key, ms[i].value) {
      assert HasKey(v.members, ms[i].key);
      var j :| 0 <= j < |v.members| && v.members[j].key == ms[i].key;
      assert Same(ms[i].value, v.members[j].value);
    }
  }

  /** Every document with an object's canonical text holds that object's members
      under their own keys, and no others. */
  lemma TextHoldsMembers(ms: seq<Member>, v: Value)
    requires WellFormed(Object(ms)) && WellFormed(v)
    requires CanonicalJson(v) == CanonicalJson(Object(ms))
    ensures v.Object? && |v.members| == |ms|
    ensures forall i :: 0 <= i < |ms| ==> Holds(v, ms[i].key, ms[i].value)
  {
    CanonicalJsonDecidesSame(Object(ms), v);
    SameHoldsMembers(ms, v);
  }

  // ---------- ascending keys ----------

  /** An object is printed with exactly its own members, each value normalised,
      in increasing key order. */
  lemma KeysAscend(ms: seq<Member>)
    ensures var sorted := Normal(Object(ms)).members;
      && CanonicalJson(Object(ms)) == "{" + PrintMembers(sorted)
      && multiset(sorted) == multiset(NormalMembers(ms))
      && (forall i, j :: 0 <= i < j < |sorted| ==> StrLeq(sorted[i].key, sorted[j].key))
  {
    KeyOrder();
    SortSorts(NormalMembers(ms), KeyLeq);
  }

  lemma SortsTwo(a: Member, b: Member)
    requires !KeyLeq(b, a)
    ensures Sort([b, a], KeyLeq) == [a, b]
  {
    assert [b, a][1..] == [a] && [a][1..] == [];
    assert Sort([a], KeyLeq) == [a];
    assert Insert(b, [a], KeyLeq) == [a] + Insert(b, [], KeyLeq);
  }

  function CanonicalMember(m: Member): string {
    Quote(m.key) + (":" + CanonicalJson(m.value))
  }

  /** Of two members the one with the smaller key is printed first, even if inserted last. */
  lemma SmallerKeyFirst(a: Member, b: Member)
    requires !StrLeq(b.key, a.key)
    ensures CanonicalJson(Object([b, a])) == "{" + (CanonicalMember(a) + ("," + (CanonicalMember(b) + "}")))
  {
    var x, y := Member(a.key, Normal(a.value)), Member(b.key, Normal(b.value));
    assert NormalMembers([b, a]) == [y, x];
    SortsTwo(x, y);
    assert [x, y][1..] == [y] && [y][1..] == [];
    assert PrintMoreMembers([y]) == "," + (PrintMember(y) + PrintMoreMembers([]));
    assert Normal(Object([b, a])) == Object([x, y]);
    assert PrintMember(x) == CanonicalMember(a) && PrintMember(y) == CanonicalMember(b);
    assert Print(Object([x, y])) == "{" + PrintMembers([x, y]);
    assert PrintMembers([x, y]) == PrintMember(x) + PrintMoreMembers([y]);
  }

  // ---------- the printer itself ----------

  /** A growable string, passed to the printer by mutable reference. */
  class Buffer {
    var text: string

    constructor ()
      ensures text == ""
    {
      text := "";
    }

    method PushStr(s: string)
      modifies this
      ensures text == old(text) + s
    {
      text := text + s;
    }
  }

  function Keys(ms: seq<Member>): (r: seq<string>)
    ensures |r| == |ms|
    ensures forall i :: 0 <= i < |r| ==> r[i] == ms[i].key
  {
    seq(|ms|, i requires 0 <= i < |ms| => ms[i].key)
  }

  lemma {:induction false} InsertedKeys(m: Member, xs: seq<Member>)
    ensures Keys(Insert(m, xs, KeyLeq)) == Insert(m.key, Keys(xs), StrLeq)
  {
    if |xs| == 0 {
    } else {
      assert Keys(xs)[1..] == Keys(xs[1..]);
      if !KeyLeq(m, xs[0]) {
        InsertedKeys(m, xs[1..]);
      }
    }
  }

  lemma {:induction false} SortedKeys(xs: seq<Member>)
    ensures Keys(Sort(xs, KeyLeq)) == Sort(Keys(xs), StrLeq)
  {
    if |xs| == 0 {
    } else {
      SortedKeys(xs[1..]);
      assert Keys(xs)[1..] == Keys(xs[1..]);
      InsertedKeys(xs[0], Sort(xs[1..], KeyLeq));
    }
  }

  /** `map[k]`. */
  function Lookup(ms: seq<Member>, k: string): (r: Value)
    requires HasKey(ms, k)
    ensures exists j :: 0 <= j < |ms| && ms[j].key == k && ms[j].value == r
  {
    if ms[0].key == k then ms[0].value
    else
      assert HasKey(ms[1..], k) by {
        var j :| 0 <= j < |ms| && ms[j].key == k;
        assert ms[1..][j-1] == ms[j];
      }
      Lookup(ms[1..], k)
  }

  /** The sorted keys with their looked-up values are the sorted members. */
  lemma SortedKeysLookUp(ms: seq<Member>, i: nat)
    requires DistinctKeys(ms) && i < |ms|
    ensures var keys := Sort(Keys(ms), StrLeq);
            var sorted := Sort(NormalMembers(ms), KeyLeq);
      && |keys| == |sorted| == |ms| && HasKey(ms, keys[i])
      && sorted[i] == Member(keys[i], Normal(Lookup(ms, keys[i])))
  {
    var xs := NormalMembers(ms);
    var sorted := Sort(xs, KeyLeq);
    assert Keys(xs) == Keys(ms);
    SortedKeys(xs);
    SortedMembersPermute(xs);
    PermutationLength(sorted, xs);
    var j := PermutationMember(sorted, xs, i);
    assert Keys(sorted)[i] == ms[j].key;
    var value := Lookup(ms, ms[j].key);
    assert forall k :: 0 <= k < |ms| && k != j ==> ms[k].key != ms[j].key;
    assert value == ms[j].value;
  }

  /** What an object's text still lacks once its first `i` sorted members are written. */
  ghost function UnwrittenMembers(sorted: seq<Member>, i: nat): string
    requires i <= |sorted|
  {
    if i == 0 then PrintMembers(sorted) else PrintMoreMembers(sorted[i..])
  }

  function Separator(i: nat): string {
    if i > 0 then "," else ""
  }

  lemma NextMember(sorted: seq<Member>, i: nat)
    requires i < |sorted|
    ensures UnwrittenMembers(sorted, i) == Separator(i) + (PrintMember(sorted[i]) + UnwrittenMembers(sorted, i + 1))
  {
    assert sorted[i..][0] == sorted[i] && sorted[i..][1..] == sorted[i+1..];
  }

  ghost function UnwrittenItems(items: seq<Value>, i: nat): string
    requires i <= |items|
  {
    if i == 0 then PrintItems(items) else PrintMoreItems(items[i..])
  }

  lemma NextItem(items: seq<Value>, i: nat)
    requires i < |items|
    ensures UnwrittenItems(items, i) == Separator(i) + (Print(items[i]) + UnwrittenItems(items, i + 1))
  {
    assert items[i..][0] == items[i] && items[i..][1..] == items[i+1..];
  }

  lemma Regroup(written: string, sep: string, piece: string, rest: string)
    ensures written + (sep + (piece + rest)) == (written + sep + piece) + rest
  {}

  lemma RegroupMember(written: string, key: string, value: string)
    ensures written + key + ":" + value == written + (key + (":" + value))
  {}

  /** Appends the canonical text of `value` to the buffer. */
  method WriteCanonical(value: Value, out: Buffer)
    requires WellFormed(value)
    modifies out
    ensures out.text == old(out.text) + CanonicalJson(value)
    decreases value, 2
  {
    match value
    case Object(ms) => WriteObject(value, out);
    case Array(items) => WriteArray(value, out);
    case scalar => out.PushStr(Print(value));
  }

  method WriteObject(value: Value, out: Buffer)
    requires WellFormed(value) && value.Object?
    modifies out
    ensures out.text == old(out.text) + CanonicalJson(value)
    decreases value, 1
  {
    var ms := value.members;
    var keys := Sort(Keys(ms), StrLeq);
    ghost var sorted := Sort(NormalMembers(ms), KeyLeq);
    SortedKeysLength(ms);
    out.PushStr("{");
    var i := 0;
    while i < |keys|
      invariant 0 <= i <= |keys|
      invariant old(out.text) + "{" + PrintMembers(sorted) == out.text + UnwrittenMembers(sorted, i)
    {
      SortedKeysLookUp(ms, i);
      NextMember(sorted, i);
      Regroup(out.text, Separator(i), PrintMember(sorted[i]), UnwrittenMembers(sorted, i + 1));
      WriteMember(value, keys[i], i, out);
      i := i + 1;
    }
    out.PushStr("}");
    Shift(old(out.text), "{", PrintMembers(sorted));
  }

  method WriteMember(value: Value, k: string, i: nat, out: Buffer)
    requires WellFormed(value) && value.Object? && HasKey(value.members, k)
    modifies out
    ensures out.text == old(out.text) + Separator(i) + PrintMember(Member(k, Normal(Lookup(value.members, k))))
    decreases value, 0
  {
    if i > 0 {
      out.PushStr(",");
    }
    RegroupMember(out.text, Quote(k), CanonicalJson(Lookup(value.members, k)));
    out.PushStr(Quote(k));
    out.PushStr(":");
    WriteCanonical(Lookup(value.members, k), out);
  }

  method WriteArray(value: Value, out: Buffer)
    requires WellFormed(value) && value.Array?
    modifies out
    ensures out.text == old(out.text) + CanonicalJson(value)
    decreases value, 1
  {
    var items := value.items;
    ghost var normal := NormalItems(items);
    out.PushStr("[");
    var i := 0;
    while i < |items|
      invariant 0 <= i <= |items|
      invariant old(out.text) + "[" + PrintItems(normal) == out.text + UnwrittenItems(normal, i)
    {
      NextItem(normal, i);
      Regroup(out.text, Separator(i), Print(normal[i]), UnwrittenItems(normal, i + 1));
      WriteItem(value, i, out);
      i := i + 1;
    }
    out.PushStr("]");
    Shift(old(out.text), "[", PrintItems(normal));
  }

  method WriteItem(value: Value, i: nat, out: Buffer)
    requires WellFormed(value) && value.Array? && i < |value.items|
    modifies out
    ensures out.text == old(out.text) + Separator(i) + CanonicalJson(value.items[i])
    decreases value, 0
  {
    if i > 0 {
      out.PushStr(",");
    }
    WriteCanonical(value.items[i], out);
  }

  lemma SortedKeysLength(ms: seq<Member>)
    ensures |Sort(Keys(ms), StrLeq)| == |Sort(NormalMembers(ms), KeyLeq)| == |ms|
  {
    var xs := NormalMembers(ms);
    assert Keys(xs) == Keys(ms);
    SortedKeys(xs);
    SortedMembersPermute(xs);
    PermutationLength(Sort(xs, KeyLeq), xs);
  }

  method WriteCanonicalJson(value: Value) returns (text: string)
    requires WellFormed(value)
    ensures text == CanonicalJson(value)
  {
    var out := new Buffer();
    WriteCanonical(value, out);
    text := out.text;
  }

  /** SHA-256 of the canonical text. */
  function CanonicalHash(crypto: Crypto, v: Value): Hash32 {
    crypto.sha256(Utf8(CanonicalJson(v)))
  }

  /** Barring a collision between the two texts, equal hashes mean the same document. */
  lemma CanonicalHashBinds(crypto: Crypto, a: Value, b: Value)
    requires WellFormed(a) && WellFormed(b)
    requires crypto.NoCollision(Utf8(CanonicalJson(a)), Utf8(CanonicalJson(b)))
    ensures CanonicalHash(crypto, a) == CanonicalHash(crypto, b) <==> Same(a, b)
  {
    CanonicalJsonDecidesSame(a, b);
    if CanonicalHash(crypto, a) == CanonicalHash(crypto, b) {
      Utf8Injective(CanonicalJson(a), CanonicalJson(b));
    }
  }
}
